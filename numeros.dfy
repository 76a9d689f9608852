/**
  The one-hot helpers and the batch cursor of the training script
  (numeros.ts): `oneHotToIndices`, `indicesToOneHot`, and `MnistData`'s
  `nextBatch` with the closures of `nextTrainBatch`/`nextTestBatch` that walk
  a shuffled index list.
 */
module Numeros {
  import opened Bytes
  import opened Records

  const IMAGE_SIZE: nat := 784
  const NUM_CLASSES: nat := 10

  // ---------------------------------------------------------------------
  // One-hot rows to class indices

  /** The position of the first 1 in a row, or 0 when the row has none (the `Int32Array` default). */
  function RowIndex(row: seq<byte>): (j: nat)
    ensures 1 in row ==> j < |row| && row[j] == 1 && forall k :: 0 <= k < j ==> row[k] != 1
    ensures 1 !in row ==> j == 0
  {
    if 1 !in row then 0
    else if row[0] == 1 then 0
    else 1 + RowIndex(row[1..])
  }

  /** What `oneHotToIndices` computes for a positive class count: one index per complete row. */
  function Indices(oneHot: seq<byte>, n: nat): (r: seq<int>)
    requires n > 0
    ensures |r| == |oneHot| / n
  {
    ChunksCount(oneHot, n);
    var rows := Chunks(oneHot, n);
    seq(|rows|, i requires 0 <= i < |rows| => RowIndex(rows[i]))
  }

  /**
    `oneHotToIndices`. The result has `length / numClasses` entries (an
    `Int32Array` truncates the length); the loop runs while `i < length /
    numClasses`, so a partial last row gets one more pass whose write is out
    of range and dropped. `new Int32Array(len)` truncates a fractional
    length toward zero and throws a RangeError only for a length of -1 or
    less or an infinite one: with no classes the length is Infinity (NaN,
    read as 0, for empty input); with `-numClasses > length` it is in
    `(-1, 0)`, read as 0, and the loop does not run; with `-numClasses` at
    most the length it is -1 or less.
   */
  method OneHotToIndices(oneHotLabels: seq<byte>, numClasses: int) returns (r: Result<seq<int>>)
    ensures |oneHotLabels| == 0 ==> r == Success([])
    ensures |oneHotLabels| > 0 && numClasses == 0 ==> r == Failure(RangeError)
    ensures numClasses < 0 && -numClasses <= |oneHotLabels| ==> r == Failure(RangeError)
    ensures numClasses < 0 && -numClasses > |oneHotLabels| ==> r == Success([])
    ensures |oneHotLabels| > 0 && numClasses > 0 ==> r == Success(Indices(oneHotLabels, numClasses))
  {
    if |oneHotLabels| == 0 {
      return Success([]);
    }
    if numClasses == 0 {
      return Failure(RangeError);
    }
    if numClasses < 0 {
      if -numClasses > |oneHotLabels| {
        return Success([]);
      }
      return Failure(RangeError);
    }
    var numLabels := |oneHotLabels| / numClasses;
    ChunksCount(oneHotLabels, numClasses);
    var rows := Chunks(oneHotLabels, numClasses);
    var indices := new int[numLabels](_ => 0);
    var i, offset := 0, 0;
    while offset < |oneHotLabels|  // i < length / numClasses
      invariant offset == i * numClasses
      invariant i <= numLabels || offset >= |oneHotLabels|
      invariant forall k :: 0 <= k < i && k < numLabels ==> indices[k] == RowIndex(rows[k])
      invariant forall k :: i <= k < numLabels ==> indices[k] == 0
      decreases |oneHotLabels| - offset
    {
      var j := ScanRow(oneHotLabels, offset, numClasses);
      if j < numClasses && i < numLabels {
        indices[i] := j;
      }
      if i < numLabels {
        RowOfOffset(oneHotLabels, numClasses, i);
        RowIndexOfScan(rows[i], oneHotLabels, offset, j);
      }
      NextRowAdvances(i, numClasses, numLabels, |oneHotLabels|);
      i, offset := i + 1, offset + numClasses;
    }
    RowsExhausted(i, numClasses, numLabels, |oneHotLabels|);
    assert indices[..] == Indices(oneHotLabels, numClasses);
    r := Success(indices[..]);
  }

  /**
    The inner loop of `oneHotToIndices`: the first column `j < n` whose byte
    at `offset + j` is a 1 (the loop breaks there), or `n` when there is none.
   */
  method ScanRow(s: seq<byte>, offset: nat, n: nat) returns (j: nat)
    ensures j <= n && NoOneIn(s, offset, offset + j)
    ensures j < n ==> offset + j < |s| && s[offset + j] == 1
  {
    j := 0;
    while j < n
      invariant j <= n && NoOneIn(s, offset, offset + j)
    {
      if offset + j < |s| && s[offset + j] == 1 {
        break;
      }
      j := j + 1;
    }
  }

  /** Row `i` of the input is the `numClasses` bytes at `i * numClasses`. */
  lemma RowOfOffset(s: seq<byte>, n: nat, i: nat)
    requires n > 0 && i < |s| / n
    ensures |Chunks(s, n)| == |s| / n && (i + 1) * n <= |s|
    ensures Chunks(s, n)[i] == s[i * n..i * n + n]
  {
    ChunksCount(s, n);
    ChunkAt(s, n, i);
  }

  /** No byte in `s[from..to]` (clipped to `s`) is a 1. */
  predicate NoOneIn(s: seq<byte>, from: nat, to: nat) {
    forall k :: from <= k < to && k < |s| ==> s[k] != 1
  }

  /**
    The scan of row `i` stopped at column `j`: either on its first 1, or
    past the end with no 1 seen; either way `j` (or 0) is the row's index.
   */
  lemma RowIndexOfScan(row: seq<byte>, s: seq<byte>, offset: nat, j: nat)
    requires offset + |row| <= |s| && row == s[offset..offset + |row|]
    requires j <= |row| && NoOneIn(s, offset, offset + j)
    requires j < |row| ==> s[offset + j] == 1
    ensures RowIndex(row) == if j < |row| then j else 0
  {
    if j < |row| {
      assert row[j] == 1;
    } else {
      forall k | 0 <= k < |row| ensures row[k] != 1 {
        assert s[offset + k] == row[k];
      }
    }
  }

  lemma NextRowAdvances(i: nat, n: nat, numLabels: nat, len: nat)
    requires n > 0 && numLabels == len / n && i * n < len
    ensures (i + 1) * n == i * n + n
    ensures i + 1 <= numLabels || (i + 1) * n >= len
  {
    if i + 1 > numLabels {
      DivUnique(len, n, len / n, len % n);
      MulLe(numLabels + 1, i + 1, n);
    }
  }

  lemma RowsExhausted(i: nat, n: nat, numLabels: nat, len: nat)
    requires n > 0 && numLabels == len / n && i * n >= len
    ensures i >= numLabels
  {
    if i < numLabels {
      DivUnique(len, n, len / n, len % n);
      MulLe(i + 1, numLabels, n);
    }
  }

  // ---------------------------------------------------------------------
  // Class indices to one-hot rows

  /** Some index `i` puts its 1 at position `p`: `i * n + indices[i] == p`. */
  predicate Marked(indices: seq<int>, n: int, p: int, upTo: nat)
    requires upTo <= |indices|
  {
    exists i :: 0 <= i < upTo && i * n + indices[i] == p
  }

  /** What `indicesToOneHot` computes: 1 wherever some index put a 1, 0 elsewhere. */
  function OneHotOf(indices: seq<int>, n: nat): (r: seq<byte>)
    ensures |r| == |indices| * n
  {
    seq(|indices| * n, p requires 0 <= p < |indices| * n => if Marked(indices, n, p, |indices|) then 1 else 0)
  }

  /**
    `indicesToOneHot`: a zero-filled `Uint8Array` of `numLabels *
    numClasses` bytes, then `oneHot[i * numClasses + indices[i]] = 1` for
    each `i`; a position outside the array is silently ignored. A negative
    length is a RangeError.
   */
  method IndicesToOneHot(indices: seq<int>, numClasses: int) returns (r: Result<seq<byte>>)
    ensures |indices| > 0 && numClasses < 0 ==> r == Failure(RangeError)
    ensures |indices| == 0 ==> r == Success([])
    ensures numClasses >= 0 ==> r == Success(OneHotOf(indices, numClasses))
  {
    if |indices| > 0 && numClasses < 0 {
      return Failure(RangeError);
    }
    if |indices| == 0 {
      return Success([]);
    }
    var numLabels := |indices|;
    var oneHotLabels := new byte[numLabels * numClasses](_ => 0);
    for i := 0 to numLabels
      invariant forall p :: 0 <= p < oneHotLabels.Length ==>
        oneHotLabels[p] == if Marked(indices, numClasses, p, i) then 1 else 0
    {
      var classIndex := indices[i];
      var position := i * numClasses + classIndex;
      if 0 <= position < oneHotLabels.Length {
        oneHotLabels[position] := 1;
      }
      forall p | 0 <= p < oneHotLabels.Length
        ensures Marked(indices, numClasses, p, i + 1) <==> Marked(indices, numClasses, p, i) || p == position
      {
        if p == position {
          assert i * numClasses + indices[i] == p;
        }
      }
    }
    assert oneHotLabels[..] == OneHotOf(indices, numClasses);
    r := Success(oneHotLabels[..]);
  }

  /** A 1 placed by index `k` lands in row `k`, provided the index is a valid class. */
  lemma MarkOwner(k: nat, i: nat, n: nat, x: int, j: int)
    requires 0 <= x < n && 0 <= j < n && k * n + x == i * n + j
    ensures k == i && x == j
  {
    if k < i {
      MulLe(k + 1, i, n);
    } else if k > i {
      MulLe(i + 1, k, n);
    }
  }

  /**
    With every index a valid class, row `i` of the one-hot output has a 1
    exactly in column `indices[i]` and 0 everywhere else.
   */
  lemma OneHotAt(indices: seq<int>, n: nat, i: nat, j: nat)
    requires forall k :: 0 <= k < |indices| ==> 0 <= indices[k] < n
    requires i < |indices| && j < n
    ensures i * n + j < |indices| * n
    ensures OneHotOf(indices, n)[i * n + j] == if j == indices[i] then 1 else 0
  {
    MulLe(i + 1, |indices|, n);
    MarkedAt(indices, n, i, j);
  }

  /** Position `i * n + j` is marked exactly when `j` is index `i`. */
  lemma MarkedAt(indices: seq<int>, n: nat, i: nat, j: nat)
    requires forall k :: 0 <= k < |indices| ==> 0 <= indices[k] < n
    requires i < |indices| && j < n
    ensures Marked(indices, n, i * n + j, |indices|) <==> j == indices[i]
  {
    if Marked(indices, n, i * n + j, |indices|) {
      var k :| 0 <= k < |indices| && k * n + indices[k] == i * n + j;
      MarkOwner(k, i, n, indices[k], j);
    }
  }

  /** `oneHotToIndices(indicesToOneHot(ix, n), n) == ix` when every index is in `[0, n)`. */
  lemma OneHotRoundTrip(indices: seq<int>, n: nat)
    requires n > 0 && forall k :: 0 <= k < |indices| ==> 0 <= indices[k] < n
    ensures Indices(OneHotOf(indices, n), n) == indices
  {
    var s := OneHotOf(indices, n);
    DivUnique(|s|, n, |indices|, 0);
    var r := Indices(s, n);
    forall i | 0 <= i < |indices| ensures r[i] == indices[i] {
      RowOfOffset(s, n, i);
      var row := Chunks(s, n)[i];
      forall j | 0 <= j < n ensures row[j] == if j == indices[i] then 1 else 0 {
        OneHotAt(indices, n, i, j);
      }
      assert row[indices[i]] == 1;
    }
  }

  // ---------------------------------------------------------------------
  // The shuffled batch cursor

  /** The pixel values a batch is made of; their float normalisation is not part of this model. */
  type Pixel = real

  /** Block `idx` of size `size`: what `slice(idx * size, idx * size + size)` returns. */
  function Block<T>(s: seq<T>, idx: nat, size: nat): (b: seq<T>)
    requires (idx + 1) * size <= |s|
    ensures |b| == size
  {
    s[idx * size..idx * size + size]
  }

  predicate InRange(ix: seq<nat>, len: nat, size: nat) {
    forall k :: 0 <= k < |ix| ==> (ix[k] + 1) * size <= len
  }

  /** The blocks at the given indices, in order. */
  function Gather<T>(s: seq<T>, ix: seq<nat>, size: nat): (r: seq<seq<T>>)
    requires InRange(ix, |s|, size)
    ensures |r| == |ix| && Uniform(r, size)
  {
    seq(|ix|, k requires 0 <= k < |ix| => Block(s, ix[k], size))
  }

  /**
    The indices `batchSize` successive cursor calls return from `cursor`:
    call `k` (counting from 1) moves the cursor to `(cursor + k) % len` and
    returns that entry, so the entry under the starting cursor is skipped.
   */
  function BatchIndices(indices: seq<nat>, cursor: nat, batchSize: nat): (r: seq<nat>)
    requires |indices| > 0
    ensures |r| == batchSize
  {
    seq(batchSize, k requires 0 <= k < batchSize => indices[(cursor + k + 1) % |indices|])
  }

  /** Every index a batch draws comes from the list, so its blocks lie wholly inside the data. */
  lemma BatchInRange(indices: seq<nat>, cursor: nat, batchSize: nat, len: nat, size: nat)
    requires |indices| > 0 && InRange(indices, len, size)
    ensures InRange(BatchIndices(indices, cursor, batchSize), len, size)
  {
    var ix := BatchIndices(indices, cursor, batchSize);
    forall k | 0 <= k < batchSize ensures (ix[k] + 1) * size <= len {
      var j := (cursor + k + 1) % |indices|;
      assert ix[k] == indices[j];
    }
  }

  /** One set after `load`: a non-empty shuffled index list whose every entry names a whole image and label block. */
  predicate SetData(indices: seq<nat>, images: seq<Pixel>, labels: seq<byte>) {
    && |indices| > 0
    && InRange(indices, |images|, IMAGE_SIZE)
    && InRange(indices, |labels|, NUM_CLASSES)
  }

  lemma {:induction false} ModSucc(a: nat, m: nat)
    requires m > 0
    ensures (a % m + 1) % m == (a + 1) % m
  {
    var q, r := a / m, a % m;
    if r + 1 < m {
      DivUnique(a + 1, m, q, r + 1);
      DivUnique(r + 1, m, 0, r + 1);
    } else {
      DivUnique(a + 1, m, q + 1, 0);
      DivUnique(r + 1, m, 1, 0);
    }
  }

  /**
    A batch as long as the index list visits every shuffled index exactly
    once: it is the list rotated to start just after the cursor.
   */
  lemma FullBatchIsPermutation(indices: seq<nat>, cursor: nat)
    requires |indices| > 0
    ensures var s := (cursor + 1) % |indices|;
      BatchIndices(indices, cursor, |indices|) == indices[s..] + indices[..s]
    ensures multiset(BatchIndices(indices, cursor, |indices|)) == multiset(indices)
  {
    var len := |indices|;
    var s := (cursor + 1) % len;
    var q := (cursor + 1) / len;
    var b := BatchIndices(indices, cursor, len);
    forall k | 0 <= k < len ensures b[k] == (indices[s..] + indices[..s])[k] {
      if k < len - s {
        DivUnique(cursor + k + 1, len, q, s + k);
      } else {
        DivUnique(cursor + k + 1, len, q + 1, s + k - len);
      }
    }
    assert indices[..s] + indices[s..] == indices;
  }

  /** `MnistData` after `load`: both sets, their shuffled index lists and their cursors. */
  class MnistData {
    var shuffledTrainIndex: nat
    var shuffledTestIndex: nat
    const trainIndices: seq<nat>
    const testIndices: seq<nat>
    const trainImages: seq<Pixel>
    const testImages: seq<Pixel>
    const trainLabels: seq<byte>
    const testLabels: seq<byte>

    /** Both sets are as `load` leaves them. */
    ghost predicate DataValid() {
      SetData(trainIndices, trainImages, trainLabels) && SetData(testIndices, testImages, testLabels)
    }

    /** The data is well formed and each cursor points into its index list. */
    ghost predicate Valid()
      reads this
    {
      DataValid() && shuffledTrainIndex < |trainIndices| && shuffledTestIndex < |testIndices|
    }

    /** The state `load` leaves: the sets and their shuffled index lists, both cursors at 0. */
    constructor (trainImages: seq<Pixel>, trainLabels: seq<byte>, trainIndices: seq<nat>,
                 testImages: seq<Pixel>, testLabels: seq<byte>, testIndices: seq<nat>)
      requires SetData(trainIndices, trainImages, trainLabels)
      requires SetData(testIndices, testImages, testLabels)
      ensures Valid()
      ensures shuffledTrainIndex == 0 && shuffledTestIndex == 0
      ensures this.trainImages == trainImages && this.trainLabels == trainLabels && this.trainIndices == trainIndices
      ensures this.testImages == testImages && this.testLabels == testLabels && this.testIndices == testIndices
    {
      shuffledTrainIndex := 0;
      shuffledTestIndex := 0;
      this.trainImages := trainImages;
      this.trainLabels := trainLabels;
      this.trainIndices := trainIndices;
      this.testImages := testImages;
      this.testLabels := testLabels;
      this.testIndices := testIndices;
    }

    /** The cursor, index list, images and labels of the training set (`train`) or the test set. */
    function Cursor(train: bool): nat
      reads this
    {
      if train then shuffledTrainIndex else shuffledTestIndex
    }

    function IndicesOf(train: bool): seq<nat>
    {
      if train then trainIndices else testIndices
    }

    function ImagesOf(train: bool): seq<Pixel>
    {
      if train then trainImages else testImages
    }

    function LabelsOf(train: bool): seq<byte>
    {
      if train then trainLabels else testLabels
    }

    /**
      The closure `nextTrainBatch` (`train`) or `nextTestBatch` passes: move
      that set's cursor one step, wrapping at the end of its index list, and
      return the index under it; the other cursor does not move.
     */
    method NextIndex(train: bool) returns (idx: nat)
      requires Valid()
      modifies this
      ensures Valid()
      ensures Cursor(train) == (old(Cursor(train)) + 1) % |IndicesOf(train)|
      ensures Cursor(!train) == old(Cursor(!train))
      ensures idx == IndicesOf(train)[Cursor(train)]
    {
      if train {
        shuffledTrainIndex := (shuffledTrainIndex + 1) % |trainIndices|;
        idx := trainIndices[shuffledTrainIndex];
      } else {
        shuffledTestIndex := (shuffledTestIndex + 1) % |testIndices|;
        idx := testIndices[shuffledTestIndex];
      }
    }

    /**
      `nextBatch` with the training pair and closure (`train`) or the test
      ones: `batchSize` cursor calls, each copying the image block and the
      label block of the returned index into the next slot of two
      zero-filled arrays.
     */
    method NextBatch(batchSize: nat, train: bool) returns (xs: seq<Pixel>, labels: seq<byte>)
      requires Valid()
      modifies this
      ensures Valid()
      ensures |xs| == batchSize * IMAGE_SIZE && |labels| == batchSize * NUM_CLASSES
      ensures Cursor(train) == (old(Cursor(train)) + batchSize) % |IndicesOf(train)|
      ensures Cursor(!train) == old(Cursor(!train))
      ensures var ix := BatchIndices(IndicesOf(train), old(Cursor(train)), batchSize);
        && xs == Flatten(Gather(ImagesOf(train), ix, IMAGE_SIZE))
        && labels == Flatten(Gather(LabelsOf(train), ix, NUM_CLASSES))
    {
      var images, setLabels := ImagesOf(train), LabelsOf(train);
      ghost var len, cursor0 := |IndicesOf(train)|, Cursor(train);
      ghost var ix := BatchIndices(IndicesOf(train), cursor0, batchSize);
      BatchInRange(IndicesOf(train), cursor0, batchSize, |images|, IMAGE_SIZE);
      BatchInRange(IndicesOf(train), cursor0, batchSize, |setLabels|, NUM_CLASSES);
      var batchImagesArray := new Pixel[batchSize * IMAGE_SIZE](_ => 0.0);
      var batchLabelsArray := new byte[batchSize * NUM_CLASSES](_ => 0);
      DivUnique(cursor0, len, 0, cursor0);
      FilledStart(batchImagesArray[..], images, ix, IMAGE_SIZE);
      FilledStart(batchLabelsArray[..], setLabels, ix, NUM_CLASSES);
      for i := 0 to batchSize
        invariant Valid()
        invariant Cursor(train) == (cursor0 + i) % len && Cursor(!train) == old(Cursor(!train))
        invariant Filled(batchImagesArray[..], images, ix, i, IMAGE_SIZE)
        invariant Filled(batchLabelsArray[..], setLabels, ix, i, NUM_CLASSES)
      {
        FillSlot(train, batchImagesArray, batchLabelsArray, ix, cursor0, i);
      }
      xs, labels := batchImagesArray[..], batchLabelsArray[..];
      FilledAll(xs, images, ix, IMAGE_SIZE);
      FilledAll(labels, setLabels, ix, NUM_CLASSES);
    }

    /** One turn of `nextBatch`'s loop: call the cursor, then copy the blocks of the index it returns into slot `i`. */
    method FillSlot(train: bool, imagesOut: array<Pixel>, labelsOut: array<byte>, ghost ix: seq<nat>, ghost cursor0: nat, i: nat)
      requires Valid() && i < |ix| && ix == BatchIndices(IndicesOf(train), cursor0, |ix|)
      requires Cursor(train) == (cursor0 + i) % |IndicesOf(train)|
      requires Filled(imagesOut[..], ImagesOf(train), ix, i, IMAGE_SIZE)
      requires Filled(labelsOut[..], LabelsOf(train), ix, i, NUM_CLASSES)
      modifies this, imagesOut, labelsOut
      ensures Valid()
      ensures Cursor(train) == (cursor0 + i + 1) % |IndicesOf(train)| && Cursor(!train) == old(Cursor(!train))
      ensures Filled(imagesOut[..], ImagesOf(train), ix, i + 1, IMAGE_SIZE)
      ensures Filled(labelsOut[..], LabelsOf(train), ix, i + 1, NUM_CLASSES)
    {
      var idx := NextIndex(train);
      ModSucc(cursor0 + i, |IndicesOf(train)|);
      CopySlot(imagesOut, labelsOut, ImagesOf(train), LabelsOf(train), idx, ix, i);
    }

    /** `nextTrainBatch`. */
    method NextTrainBatch(batchSize: nat) returns (xs: seq<Pixel>, labels: seq<byte>)
      requires Valid()
      modifies this
      ensures Valid()
      ensures shuffledTrainIndex == (old(shuffledTrainIndex) + batchSize) % |trainIndices|
      ensures shuffledTestIndex == old(shuffledTestIndex)
      ensures var ix := BatchIndices(trainIndices, old(shuffledTrainIndex), batchSize);
        xs == Flatten(Gather(trainImages, ix, IMAGE_SIZE)) && labels == Flatten(Gather(trainLabels, ix, NUM_CLASSES))
    {
      xs, labels := NextBatch(batchSize, true);
    }

    /** `nextTestBatch`. */
    method NextTestBatch(batchSize: nat) returns (xs: seq<Pixel>, labels: seq<byte>)
      requires Valid()
      modifies this
      ensures Valid()
      ensures shuffledTestIndex == (old(shuffledTestIndex) + batchSize) % |testIndices|
      ensures shuffledTrainIndex == old(shuffledTrainIndex)
      ensures var ix := BatchIndices(testIndices, old(shuffledTestIndex), batchSize);
        xs == Flatten(Gather(testImages, ix, IMAGE_SIZE)) && labels == Flatten(Gather(testLabels, ix, NUM_CLASSES))
    {
      xs, labels := NextBatch(batchSize, false);
    }
  }

  /** Slot `i` of a batch: the image block and the label block of index `idx`. */
  method CopySlot(imagesOut: array<Pixel>, labelsOut: array<byte>, images: seq<Pixel>, labels: seq<byte>,
                  idx: nat, ghost ix: seq<nat>, i: nat)
    requires i < |ix| && idx == ix[i]
    requires Filled(imagesOut[..], images, ix, i, IMAGE_SIZE) && Filled(labelsOut[..], labels, ix, i, NUM_CLASSES)
    modifies imagesOut, labelsOut
    ensures Filled(imagesOut[..], images, ix, i + 1, IMAGE_SIZE) && Filled(labelsOut[..], labels, ix, i + 1, NUM_CLASSES)
  {
    CopyBlock(imagesOut, images, idx, ix, i, IMAGE_SIZE);
    CopyBlock(labelsOut, labels, idx, ix, i, NUM_CLASSES);
  }

  /** The first `i` slots of `a` hold the blocks of `ix[..i]`, in order. */
  ghost predicate Filled<T>(a: seq<T>, s: seq<T>, ix: seq<nat>, i: nat, size: nat) {
    && i <= |ix| && InRange(ix, |s|, size) && |a| == |ix| * size && i * size <= |a|
    && a[..i * size] == Flatten(Gather(s, ix[..i], size))
  }

  lemma FilledStart<T>(a: seq<T>, s: seq<T>, ix: seq<nat>, size: nat)
    requires InRange(ix, |s|, size) && |a| == |ix| * size
    ensures Filled(a, s, ix, 0, size)
  {
    assert Gather(s, ix[..0], size) == [];
  }

  lemma FilledAll<T>(a: seq<T>, s: seq<T>, ix: seq<nat>, size: nat)
    requires Filled(a, s, ix, |ix|, size)
    ensures a == Flatten(Gather(s, ix, size))
  {
    assert ix[..|ix|] == ix;
  }

  /**
    One slot of `nextBatch`: `slice` block `ix[i]` out of `s` and `set` it at
    slot `i` of `dst`; the slots before it already hold their blocks.
   */
  method CopyBlock<T>(dst: array<T>, s: seq<T>, idx: nat, ghost ix: seq<nat>, i: nat, size: nat)
    requires size > 0 && i < |ix| && idx == ix[i]
    requires Filled(dst[..], s, ix, i, size)
    modifies dst
    ensures Filled(dst[..], s, ix, i + 1, size)
  {
    assert (ix[i] + 1) * size <= |s|;
    MulSucc(idx, size);
    var block := s[idx * size..idx * size + size];
    MulSucc(i, size);
    MulLe(i + 1, |ix|, size);
    ghost var was := dst[..];
    CopyInto(dst, block, i * size);
    SlotFilled(was, dst[..], s, ix, i, i * size, size);
  }

  lemma SlotFilled<T>(was: seq<T>, now: seq<T>, s: seq<T>, ix: seq<nat>, i: nat, offset: nat, size: nat)
    requires size > 0 && i < |ix| && InRange(ix, |s|, size)
    requires offset == i * size && offset + size <= |was|
    requires was[..offset] == Flatten(Gather(s, ix[..i], size))
    requires now == was[..offset] + Block(s, ix[i], size) + was[offset + size..]
    ensures now[..offset + size] == Flatten(Gather(s, ix[..i + 1], size))
  {
    GatherSnoc(s, ix, i, size);
  }

  lemma MulSucc(a: nat, d: nat)
    ensures (a + 1) * d == a * d + d
  {
  }

  /** Gathering one more index appends its block. */
  lemma GatherSnoc<T>(s: seq<T>, ix: seq<nat>, i: nat, size: nat)
    requires i < |ix| && InRange(ix, |s|, size)
    ensures Flatten(Gather(s, ix[..i + 1], size)) == Flatten(Gather(s, ix[..i], size)) + Block(s, ix[i], size)
  {
    assert Gather(s, ix[..i + 1], size) == Gather(s, ix[..i], size) + [Block(s, ix[i], size)];
    FlattenAppend(Gather(s, ix[..i], size), Block(s, ix[i], size));
  }
}

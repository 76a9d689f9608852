/**
  The IDX1 label decoder (idx/decoded-label.ts): check the magic 2049, read
  the declared count, read that many bytes after the 8-byte header, and write
  them to `labels.txt` one decimal number per line.
 */
module DecodedLabel {
  import opened Bytes
  import opened Text
  import opened EncodedLabel

  /**
    The labels `processIDXFile` reads from a buffer, or what it throws: a
    DataView read past the end is a RangeError, a wrong magic a format error.
    A count of zero or less reads nothing; the bytes after the last counted
    label are ignored.
   */
  function LabelsOf(buf: seq<byte>): (r: Result<seq<byte>>)
    ensures r.Success? ==> |buf| >= LABEL_HEADER_BYTES && Int32BE(buf, 0) == LABEL_MAGIC
    ensures r.Success? ==> buf[..LABEL_HEADER_BYTES] + r.value <= buf
    ensures r.Success? ==> |r.value| == if Int32BE(buf, 4) < 0 then 0 else Int32BE(buf, 4)
    ensures |buf| < 4 ==> r == Failure(RangeError)
    ensures |buf| >= 4 && Int32BE(buf, 0) != LABEL_MAGIC ==> r == Failure(FormatError(Int32BE(buf, 0)))
    ensures |buf| >= 4 && Int32BE(buf, 0) == LABEL_MAGIC && |buf| < LABEL_HEADER_BYTES ==> r == Failure(RangeError)
    ensures |buf| >= LABEL_HEADER_BYTES && Int32BE(buf, 0) == LABEL_MAGIC ==>
      (r.Success? <==> LABEL_HEADER_BYTES + (if Int32BE(buf, 4) < 0 then 0 else Int32BE(buf, 4)) <= |buf|)
    ensures |buf| >= LABEL_HEADER_BYTES && Int32BE(buf, 0) == LABEL_MAGIC && r.Failure? ==> r.error == RangeError
  {
    if |buf| < 4 then Failure(RangeError)
    else if Int32BE(buf, 0) != LABEL_MAGIC then Failure(FormatError(Int32BE(buf, 0)))
    else if |buf| < LABEL_HEADER_BYTES then Failure(RangeError)
    else
      var n := Int32BE(buf, 4);
      if n <= 0 then Success([])
      else if LABEL_HEADER_BYTES + n > |buf| then Failure(RangeError)
      else Success(buf[LABEL_HEADER_BYTES..LABEL_HEADER_BYTES + n])
  }

  /** `processIDXFile` up to `saveLabel`: the header checks, then one `getUint8` per label. */
  method ReadLabels(buffer: seq<byte>) returns (r: Result<seq<byte>>)
    ensures r == LabelsOf(buffer)
  {
    if |buffer| < 4 {
      return Failure(RangeError);
    }
    var magicNumber := Int32BE(buffer, 0);
    if magicNumber != LABEL_MAGIC {
      return Failure(FormatError(magicNumber));
    }
    if |buffer| < LABEL_HEADER_BYTES {
      return Failure(RangeError);
    }
    var numLabels := Int32BE(buffer, 4);
    var labels: seq<byte> := [];
    var i := LABEL_HEADER_BYTES;
    while i < LABEL_HEADER_BYTES + numLabels
      invariant LABEL_HEADER_BYTES <= i <= |buffer|
      invariant i == LABEL_HEADER_BYTES || i <= LABEL_HEADER_BYTES + numLabels
      invariant labels == buffer[LABEL_HEADER_BYTES..i]
      decreases LABEL_HEADER_BYTES + numLabels - i
    {
      if i >= |buffer| {
        return Failure(RangeError);
      }
      labels := labels + [buffer[i]];
      i := i + 1;
    }
    r := Success(labels);
  }

  /** The decimal text of every label, in order. */
  function LabelStrings(labels: seq<byte>): (ds: seq<string>)
    ensures |ds| == |labels|
  {
    seq(|labels|, i requires 0 <= i < |labels| => DecimalString(labels[i]))
  }

  /**
    `labels.join("\n")`: each label in decimal, one per line, no final
    newline. No empty labels and no text: splitting at the newlines gives
    back exactly one line per label.
   */
  function SaveLabel(labels: seq<byte>): (r: string)
    ensures |labels| == 0 ==> r == ""
    ensures |labels| > 0 ==> Split(r, '\n') == LabelStrings(labels)
  {
    var ds := LabelStrings(labels);
    assert forall i :: 0 <= i < |ds| ==> '\n' !in ds[i] by {
      forall i | 0 <= i < |ds| ensures '\n' !in ds[i] {
        DecimalNoSpace(labels[i]);
      }
    }
    if |ds| > 0 then SplitJoin(ds, '\n'); Join(ds, '\n') else Join(ds, '\n')
  }

  /** An encoded label file decodes to exactly the labels that were encoded. */
  lemma DecodeEncodedLabels(labels: seq<byte>, extra: seq<byte>)
    requires IsInt32(|labels|)
    ensures LabelsOf(LabelFile(labels) + extra) == Success(labels)
  {
    var f := LabelFile(labels);
    LabelFileLayout(labels);
    var g := f + extra;
    assert forall k :: 0 <= k < LABEL_HEADER_BYTES ==> g[k] == f[k];
    assert Int32BE(g, 0) == Int32BE(f, 0) && Int32BE(g, 4) == Int32BE(f, 4);
    assert g[LABEL_HEADER_BYTES..LABEL_HEADER_BYTES + |labels|] == f[LABEL_HEADER_BYTES..];
  }

  /** Reading `labels.txt` back the way the encoder does gives every label, in order. */
  lemma ParseSavedLabels(labels: seq<byte>)
    ensures ParseLabels(SaveLabel(labels)) == seq(|labels|, i requires 0 <= i < |labels| => Some(labels[i] as int))
  {
    var ds := LabelStrings(labels);
    forall i | 0 <= i < |ds| ensures ds[i] != "" && NoSpace(ds[i]) && '\n' !in ds[i] {
      DecimalNoSpace(labels[i]);
    }
    if |labels| == 0 {
      assert SaveLabel(labels) == "";
      assert Split("", '\n') == [""];
      assert Trim("") == "";
    } else {
      SplitJoin(ds, '\n');
      LabelLinesOfJoined(ds);
      forall i | 0 <= i < |labels| ensures ParseInt(ds[i]) == Some(labels[i] as int) {
        ParseIntRoundTrip(labels[i]);
      }
    }
  }

  lemma DecimalNoSpace(n: nat)
    ensures NoSpace(DecimalString(n)) && '\n' !in DecimalString(n)
  {
    var s := DecimalString(n);
    assert forall k :: 0 <= k < |s| ==> IsDigit(s[k]);
  }

  /** Encoding the text the decoder saved rebuilds the IDX1 file for the same labels. */
  lemma EncodeSavedLabels(labels: seq<byte>)
    requires IsInt32(|labels|)
    ensures EncodeLabelText(SaveLabel(labels)) == Success(LabelFile(labels))
  {
    ParseSavedLabels(labels);
    var parsed := ParseLabels(SaveLabel(labels));
    var bs := LabelBytes(parsed);
    assert bs.Success?;
    assert bs.value == labels;
  }

  /**
    Decoding a label file to text and encoding that text again gives back
    the original file, byte for byte, whenever the file holds exactly the
    number of labels its header declares.
   */
  lemma ReencodeDecodedLabels(file: seq<byte>)
    requires LabelsOf(file).Success?
    requires Int32BE(file, 4) == |file| - LABEL_HEADER_BYTES
    ensures EncodeLabelText(SaveLabel(LabelsOf(file).value)) == Success(file)
  {
    var labels := LabelsOf(file).value;
    assert labels == file[LABEL_HEADER_BYTES..];
    EncodeSavedLabels(labels);
    LabelFileOfBody(file);
  }

  /** A label file whose count matches its body is rebuilt by `LabelFile` from the body alone. */
  lemma LabelFileOfBody(file: seq<byte>)
    requires LabelsOf(file).Success?
    requires Int32BE(file, 4) == |file| - LABEL_HEADER_BYTES
    ensures LabelFile(file[LABEL_HEADER_BYTES..]) == file
  {
    var labels := file[LABEL_HEADER_BYTES..];
    var f := LabelFile(labels);
    LabelFileLayout(labels);
    Int32BytesRoundTrip(file, 0);
    Int32BytesRoundTrip(file, 4);
    Int32BytesRoundTrip(f, 0);
    Int32BytesRoundTrip(f, 4);
    assert file == file[0..4] + file[4..8] + file[LABEL_HEADER_BYTES..];
    assert f == f[0..4] + f[4..8] + f[LABEL_HEADER_BYTES..];
  }
}

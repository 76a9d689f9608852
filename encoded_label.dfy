/**
  The IDX1 label encoder (idx/encoded-label.ts): a text file with one label
  per line becomes magic 0x00000801, the label count, and one byte per label.
 */
module EncodedLabel {
  import opened Bytes
  import opened Text

  const LABEL_MAGIC: int := 0x0000_0801
  const LABEL_HEADER_BYTES: nat := 8

  /** `.map(line => line.trim()).filter(line => line !== "")` */
  function LabelLines(lines: seq<string>): (r: seq<string>)
    ensures |r| <= |lines|
    ensures forall i :: 0 <= i < |r| ==> r[i] != "" && Trim(r[i]) == r[i]
  {
    if |lines| == 0 then []
    else
      var t := Trim(lines[0]);
      TrimIdempotent(lines[0]);
      if t == "" then LabelLines(lines[1..]) else [t] + LabelLines(lines[1..])
  }

  /** One line is kept, trimmed, exactly when it is not blank. */
  lemma LabelLinesOne(line: string)
    ensures LabelLines([line]) == if Trim(line) == "" then [] else [Trim(line)]
  {
    assert [line][1..] == [];
  }

  lemma LabelLinesCons(line: string, rest: seq<string>)
    ensures LabelLines([line] + rest) == LabelLines([line]) + LabelLines(rest)
  {
    assert ([line] + rest)[1..] == rest;
    LabelLinesOne(line);
  }

  /** The filter works line by line: the kept lines of `a + b` are those of `a`, then those of `b`, in order. */
  lemma {:induction false} LabelLinesAppend(a: seq<string>, b: seq<string>)
    ensures LabelLines(a + b) == LabelLines(a) + LabelLines(b)
  {
    if |a| == 0 {
      assert a + b == b;
    } else {
      var x, t := a[0], a[1..];
      calc {
        LabelLines(a + b);
        { assert a + b == [x] + (t + b); }
        LabelLines([x] + (t + b));
        { LabelLinesCons(x, t + b); }
        LabelLines([x]) + LabelLines(t + b);
        { LabelLinesAppend(t, b); }
        LabelLines([x]) + (LabelLines(t) + LabelLines(b));
        (LabelLines([x]) + LabelLines(t)) + LabelLines(b);
        { assert a == [x] + t; LabelLinesCons(x, t); }
        LabelLines(a) + LabelLines(b);
      }
    }
  }

  lemma TrimStartIdempotent(s: string)
    ensures TrimStart(TrimStart(s)) == TrimStart(s)
    ensures TrimStart(s) == [] || !IsSpace(TrimStart(s)[0])
  {
  }

  lemma TrimEndKeepsStart(s: string)
    requires s == [] || !IsSpace(s[0])
    ensures TrimEnd(s) == [] || !IsSpace(TrimEnd(s)[0])
    ensures TrimEnd(s) == [] || !IsSpace(TrimEnd(s)[|TrimEnd(s)| - 1])
    ensures TrimEnd(s) <= s
  {
  }

  lemma TrimIdempotent(s: string)
    ensures Trim(Trim(s)) == Trim(s)
  {
    TrimStartIdempotent(s);
    var t := Trim(s);
    TrimEndKeepsStart(TrimStart(s));
    if t != [] {
      assert !IsSpace(t[0]) && !IsSpace(t[|t| - 1]);
    }
  }

  /** The labels as `parseInt(line, 10)` reads them, NaN as `None`. */
  function ParseLabels(text: string): (r: seq<Option<int>>)
    ensures |r| == |LabelLines(Split(text, '\n'))|
  {
    var lines := LabelLines(Split(text, '\n'));
    seq(|lines|, i requires 0 <= i < |lines| => ParseInt(lines[i]))
  }

  /**
    `labelBuffer.writeUInt8(label, index)`: a label in 0..255 is stored as
    is, NaN as 0, and any other value throws a RangeError.
   */
  function LabelByte(parsed: Option<int>): (r: Result<byte>)
    ensures r.Success? <==> 0 <= Stored(parsed) < 256
    ensures r.Success? ==> r.value == Stored(parsed)
  {
    var v := Stored(parsed);
    if 0 <= v < 256 then Success(v) else Failure(RangeError)
  }

  /** The bytes of every label, or the first failure. */
  function LabelBytes(labels: seq<Option<int>>): (r: Result<seq<byte>>)
    ensures r.Success? <==> forall i :: 0 <= i < |labels| ==> LabelByte(labels[i]).Success?
    ensures r.Success? ==> |r.value| == |labels|
    ensures r.Success? ==> forall i :: 0 <= i < |labels| ==> r.value[i] == LabelByte(labels[i]).value
    ensures r.Failure? ==> r.error == RangeError
  {
    if |labels| == 0 then Success([])
    else match (LabelByte(labels[0]), LabelBytes(labels[1..]))
      case (Success(b), Success(bs)) => Success([b] + bs)
      case (Failure(e), _) => Failure(e)
      case (_, Failure(e)) =>
        assert forall i :: 1 <= i < |labels| ==> labels[1..][i - 1] == labels[i];
        Failure(e)
  }

  /** An IDX1 file: magic and count as big-endian 32-bit integers, then one byte per label. */
  function LabelFile(labels: seq<byte>): (f: seq<byte>)
    requires IsInt32(|labels|)
    ensures |f| == LABEL_HEADER_BYTES + |labels|
    ensures f[LABEL_HEADER_BYTES..] == labels
  {
    WriteInt32BE(LABEL_MAGIC) + WriteInt32BE(|labels|) + labels
  }

  /** The header fields sit at offsets 0 and 4 and label `i` at offset `8 + i`. */
  lemma LabelFileLayout(labels: seq<byte>)
    requires IsInt32(|labels|)
    ensures var f := LabelFile(labels);
      && |f| == LABEL_HEADER_BYTES + |labels|
      && Int32BE(f, 0) == LABEL_MAGIC && Int32BE(f, 4) == |labels|
      && f[LABEL_HEADER_BYTES..] == labels
  {
    var f := LabelFile(labels);
    Int32FieldAt(f, 0, LABEL_MAGIC);
    Int32FieldAt(f, 4, |labels|);
  }

  /** What `createIDXLabelFile` writes for a given text, or the error it throws. */
  function EncodeLabelText(text: string): (r: Result<seq<byte>>)
    ensures var labels := ParseLabels(text);
      r.Success? <==> IsInt32(|labels|) && forall i :: 0 <= i < |labels| ==> LabelByte(labels[i]).Success?
    ensures r.Failure? ==> r.error == RangeError
    ensures var labels := ParseLabels(text);
      r.Success? ==> |r.value| == LABEL_HEADER_BYTES + |labels|
    ensures var labels := ParseLabels(text);
      r.Success? ==> forall i :: 0 <= i < |labels| ==> r.value[LABEL_HEADER_BYTES + i] == Stored(labels[i])
    ensures r.Success? ==> Int32BE(r.value, 0) == LABEL_MAGIC && Int32BE(r.value, 4) == |ParseLabels(text)|
  {
    var labels := ParseLabels(text);
    if !IsInt32(|labels|) then Failure(RangeError)
    else match LabelBytes(labels)
      case Success(bs) =>
        LabelFileLayout(bs);
        Success(LabelFile(bs))
      case Failure(e) => Failure(e)
  }

  /** `createIDXLabelFile`: the header, then the label buffer filled by `writeUInt8`. */
  method CreateIdxLabelFile(text: string) returns (r: Result<seq<byte>>)
    ensures r == EncodeLabelText(text)
  {
    var labels := ParseLabels(text);
    var numLabels := |labels|;
    if !IsInt32(numLabels) {
      return Failure(RangeError);
    }
    var headerBuffer := WriteInt32BE(LABEL_MAGIC) + WriteInt32BE(numLabels);
    var labelBuffer := WriteLabels(labels);
    if labelBuffer.Failure? {
      return Failure(labelBuffer.error);
    }
    r := Success(headerBuffer + labelBuffer.value);
  }

  /** `labels.forEach((label, index) => labelBuffer.writeUInt8(label, index))` on a zero-filled buffer. */
  method WriteLabels(labels: seq<Option<int>>) returns (r: Result<seq<byte>>)
    ensures r == LabelBytes(labels)
  {
    var labelBuffer := new byte[|labels|](_ => 0);
    for index := 0 to |labels|
      invariant forall i :: 0 <= i < index ==> LabelByte(labels[i]).Success?
      invariant forall i :: 0 <= i < index ==> labelBuffer[i] == LabelByte(labels[i]).value
    {
      var b := LabelByte(labels[index]);
      if b.Failure? {
        return Failure(RangeError);
      }
      labelBuffer[index] := b.value;
    }
    var bs := LabelBytes(labels);
    assert bs.Success?;
    assert labelBuffer[..] == bs.value;
    r := Success(labelBuffer[..]);
  }

  /**
    Every non-blank line counts, in order: line `i` of the text that is not
    blank gives label `i`, read by `parseInt` after trimming.
   */
  lemma {:induction false} LabelLinesOfJoined(ls: seq<string>)
    requires forall i :: 0 <= i < |ls| ==> ls[i] != "" && NoSpace(ls[i])
    ensures LabelLines(ls) == ls
  {
    if |ls| > 0 {
      LabelLinesOfJoined(ls[1..]);
      TrimNoSpace(ls[0]);
    }
  }
}

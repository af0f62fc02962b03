/** lab01/lab01.py: one bit per line, carried by the line ending.

    The container is read in binary mode, so a line is a byte string that
    ends in LF (except perhaps the last one). Bit 0 is written as a bare LF
    and bit 1 as CR LF, after stripping every trailing CR and LF byte the
    line had. The extractor reads CR LF as 1, any other LF ending as 0, and
    skips a line with no LF at all. */
module CrLfCarrier {
  import opened Outcome
  import opened Bits
  import opened LineCarrier

  type Line = seq<Byte>

  const LF: Byte := 10
  const CR: Byte := 13

  /** `line.rstrip(b'\r\n')`: the longest prefix of the line whose removed
      tail is made only of CR and LF bytes. */
  function StripCrLf(line: Line): (r: Line)
    ensures |r| <= |line| && r == line[..|r|]
    ensures |r| == 0 || (r[|r| - 1] != CR && r[|r| - 1] != LF)
    ensures forall k :: |r| <= k < |line| ==> line[k] == CR || line[k] == LF
    decreases |line|
  {
    if |line| > 0 && (line[|line| - 1] == CR || line[|line| - 1] == LF) then
      StripCrLf(line[..|line| - 1])
    else
      line
  }

  /** The ending that carries a bit. */
  function Ending(bit: Bit): Line {
    if bit == 0 then [LF] else [CR, LF]
  }

  /** One turn of the embedding loop: the line without its old
      terminators, then the bit's ending. The rewritten line reads back as
      the bit, whatever the line held before, and keeps its text. */
  function EncodeLine(line: Line, bit: Bit): (r: Line)
    ensures DecodeLine(r) == Some(bit)
    ensures StripCrLf(r) == StripCrLf(line)
  {
    var s := StripCrLf(line);
    DecodeEnding(s, bit);
    StripOfEncoded(s, Ending(bit));
    s + Ending(bit)
  }

  /** The extractor's test: CR LF reads as 1, any other LF ending as 0, and
      a line without a final LF carries nothing. */
  function DecodeLine(line: Line): (r: Option<Bit>)
    ensures r.Some? <==> |line| > 0 && line[|line| - 1] == LF
    ensures r == Some(1) <==> |line| >= 2 && line[|line| - 2] == CR && line[|line| - 1] == LF
  {
    assert |line| >= 2 ==> line[|line| - 2..] == [line[|line| - 2], line[|line| - 1]];
    assert |line| >= 1 ==> line[|line| - 1..] == [line[|line| - 1]];
    if EndsWith(line, [CR, LF]) then Some(1)
    else if EndsWith(line, [LF]) then Some(0)
    else None
  }

  /** A text without a trailing terminator, followed by a bit's ending,
      reads as that bit. */
  lemma DecodeEnding(s: Line, bit: Bit)
    requires |s| == 0 || (s[|s| - 1] != CR && s[|s| - 1] != LF)
    ensures DecodeLine(s + Ending(bit)) == Some(bit)
  {
    var e := s + Ending(bit);
    if bit == 0 {
      if |e| >= 2 {
        assert e[|e| - 2] == s[|s| - 1];
      }
    }
  }

  lemma {:induction false} StripOfEncoded(s: Line, tail: Line)
    requires |s| == 0 || (s[|s| - 1] != CR && s[|s| - 1] != LF)
    requires forall k :: 0 <= k < |tail| ==> tail[k] == CR || tail[k] == LF
    ensures StripCrLf(s + tail) == s
    decreases |tail|
  {
    if |tail| == 0 {
      assert s + tail == s;
    } else {
      var u := s + tail;
      assert u[..|u| - 1] == s + tail[..|tail| - 1];
      StripOfEncoded(s, tail[..|tail| - 1]);
    }
  }

  /** Every line the embedding loop rewrites is its text followed by its
      bit's ending, and reads back as that bit. */
  lemma EmbeddedLinesDecode(lines: seq<Line>, bits: seq<Bit>)
    requires |bits| <= |lines|
    ensures forall k :: 0 <= k < |bits| ==>
              && StripCrLf(EmbedBits(lines, bits, EncodeLine)[k]) == StripCrLf(lines[k])
              && EmbedBits(lines, bits, EncodeLine)[k] == StripCrLf(lines[k]) + Ending(bits[k])
              && DecodeLine(EmbedBits(lines, bits, EncodeLine)[k]) == Some(bits[k])
  {
    forall k | 0 <= k < |bits|
      ensures StripCrLf(EncodeLine(lines[k], bits[k])) == StripCrLf(lines[k])
      ensures DecodeLine(EncodeLine(lines[k], bits[k])) == Some(bits[k]) {
      var r := EncodeLine(lines[k], bits[k]);
    }
  }

  /** `embed_message_in_container`. */
  function EmbedMessage(lines: seq<Line>, message: string): (r: Result<Embedded<Line>>)
    ensures r.Err? <==> |TextToBits(message)| > |lines|
    ensures ByteCoded(message) ==> (r.Err? <==> 8 * |message| > |lines|)
    ensures r.Ok? ==> r.value.bitCount == |TextToBits(message)|
    ensures r.Ok? ==> |r.value.lines| == |lines|
    ensures r.Ok? ==> forall k :: r.value.bitCount <= k < |lines| ==> r.value.lines[k] == lines[k]
    ensures r.Ok? ==> forall k :: 0 <= k < r.value.bitCount ==>
              && StripCrLf(r.value.lines[k]) == StripCrLf(lines[k])
              && r.value.lines[k] == StripCrLf(lines[k]) + Ending(TextToBits(message)[k])
              && DecodeLine(r.value.lines[k]) == Some(TextToBits(message)[k])
  {
    var bits := TextToBits(message);
    if |bits| > |lines| then Err(CapacityExceeded)
    else
      EmbeddedLinesDecode(lines, bits);
      Ok(Embedded(EmbedBits(lines, bits, EncodeLine), |bits|))
  }

  /** Extracting (`extract_message_from_container`, the shared
      `LineCarrier.ExtractMessage` with this carrier's `DecodeLine`) from the
      embedder's output with the message's length gives back the message,
      for any container that had room for it. */
  lemma RoundTrip(lines: seq<Line>, message: string)
    requires ByteCoded(message)
    requires EmbedMessage(lines, message).Ok?
    ensures ExtractMessage(EmbedMessage(lines, message).value.lines, |message|, DecodeLine) == message
  {
    ExtractAfterEmbed(lines, message, EncodeLine, DecodeLine);
  }
}

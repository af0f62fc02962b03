/** lab01/lab012.py: one bit per line, carried by trailing spaces.

    The container is read as text. A line carrying bit 0 is its
    right-stripped text followed by one space and LF; bit 1 uses two
    spaces. The extractor reads a line ending in two spaces and LF as 1,
    one ending in one space and LF as 0, and skips every other line. */
module SpaceCarrier {
  import opened Outcome
  import opened Bits
  import opened PyText
  import opened LineCarrier

  type Line = string

  /** The ending that carries a bit. */
  function Ending(bit: Bit): Line {
    if bit == 0 then " \n" else "  \n"
  }

  /** One turn of the embedding loop: the right-stripped line, then the
      bit's ending. The rewritten line reads back as the bit and keeps its
      stripped text; stripping first is what keeps a bit-0 line from ending
      in two spaces. */
  function EncodeLine(line: Line, bit: Bit): (r: Line)
    ensures DecodeLine(r) == Some(bit)
    ensures RStrip(r) == RStrip(line)
  {
    var s := RStrip(line);
    DecodeEnding(s, bit);
    RStripOfPadded(s, Ending(bit));
    s + Ending(bit)
  }

  /** The extractor's test (its properties are `DecodeLineSpec`). */
  function DecodeLine(line: Line): Option<Bit> {
    if EndsWith(line, "  \n") then Some(1)
    else if EndsWith(line, " \n") then Some(0)
    else None
  }

  /** The two suffix tests in terms of the line's last characters. */
  lemma EndingFacts(line: Line)
    ensures EndsWith(line, "  \n") <==> |line| >= 3 && line[|line| - 3] == ' ' && line[|line| - 2] == ' ' && line[|line| - 1] == '\n'
    ensures EndsWith(line, " \n") <==> |line| >= 2 && line[|line| - 2] == ' ' && line[|line| - 1] == '\n'
  {
    if |line| >= 3 {
      assert line[|line| - 3..] == [line[|line| - 3], line[|line| - 2], line[|line| - 1]];
    }
    if |line| >= 2 {
      assert line[|line| - 2..] == [line[|line| - 2], line[|line| - 1]];
    }
  }

  /** In terms of the line's last characters: a line carries a bit exactly
      when it ends in a space and LF, and the bit is 1 exactly when a
      second space precedes that one. */
  lemma DecodeLineSpec(line: Line)
    ensures DecodeLine(line).Some? <==> |line| >= 2 && line[|line| - 2] == ' ' && line[|line| - 1] == '\n'
    ensures DecodeLine(line) == Some(1) <==> |line| >= 3 && line[|line| - 3] == ' ' && line[|line| - 2] == ' ' && line[|line| - 1] == '\n'
  {
    EndingFacts(line);
  }

  /** A text that does not end in whitespace, followed by a bit's ending,
      reads as that bit. */
  lemma DecodeEnding(s: Line, bit: Bit)
    requires |s| == 0 || !IsSpace(s[|s| - 1])
    ensures DecodeLine(s + Ending(bit)) == Some(bit)
  {
    var e := s + Ending(bit);
    if bit == 0 && |e| >= 3 {
      assert e[|e| - 3] == s[|s| - 1];
    }
  }

  /** Every line the embedding loop rewrites keeps its stripped text and
      reads back as its bit. */
  lemma EmbeddedLinesDecode(lines: seq<Line>, bits: seq<Bit>)
    requires |bits| <= |lines|
    ensures forall k :: 0 <= k < |bits| ==>
              && RStrip(EmbedBits(lines, bits, EncodeLine)[k]) == RStrip(lines[k])
              && DecodeLine(EmbedBits(lines, bits, EncodeLine)[k]) == Some(bits[k])
  {
    forall k | 0 <= k < |bits|
      ensures RStrip(EncodeLine(lines[k], bits[k])) == RStrip(lines[k])
      ensures DecodeLine(EncodeLine(lines[k], bits[k])) == Some(bits[k]) {
      var r := EncodeLine(lines[k], bits[k]);
    }
  }

  /** `embed_message_in_spaces`. */
  function EmbedMessage(lines: seq<Line>, message: string): (r: Result<Embedded<Line>>)
    ensures r.Err? <==> |TextToBits(message)| > |lines|
    ensures ByteCoded(message) ==> (r.Err? <==> 8 * |message| > |lines|)
    ensures r.Ok? ==> r.value.bitCount == |TextToBits(message)|
    ensures r.Ok? ==> |r.value.lines| == |lines|
    ensures r.Ok? ==> forall k :: r.value.bitCount <= k < |lines| ==> r.value.lines[k] == lines[k]
    ensures r.Ok? ==> forall k :: 0 <= k < r.value.bitCount ==>
              && RStrip(r.value.lines[k]) == RStrip(lines[k])
              && r.value.lines[k] == RStrip(lines[k]) + Ending(TextToBits(message)[k])
              && DecodeLine(r.value.lines[k]) == Some(TextToBits(message)[k])
  {
    var bits := TextToBits(message);
    if |bits| > |lines| then Err(CapacityExceeded)
    else
      EmbeddedLinesDecode(lines, bits);
      Ok(Embedded(EmbedBits(lines, bits, EncodeLine), |bits|))
  }

  /** Extracting (`extract_message_from_spaces`, the shared
      `LineCarrier.ExtractMessage` with this carrier's `DecodeLine`) from the
      embedder's output with the message's length gives back the message,
      for any container that had room for it. */
  lemma RoundTrip(lines: seq<Line>, message: string)
    requires ByteCoded(message)
    requires EmbedMessage(lines, message).Ok?
    ensures ExtractMessage(EmbedMessage(lines, message).value.lines, |message|, DecodeLine) == message
  {
    ExtractAfterEmbed(lines, message, EncodeLine, DecodeLine);
  }
}

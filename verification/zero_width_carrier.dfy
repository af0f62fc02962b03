/** lab011/lab01.py: one bit per line, carried by an invisible character.

    The container is read as text. A line carrying bit 1 is its
    right-stripped text followed by U+200B (zero width space) and LF; bit 0
    is the right-stripped text followed by LF. The extractor takes one bit
    from EVERY line: 1 when the line ends in U+200B and LF, 0 otherwise.
    Because U+200B is not whitespace for Python, stripping does not remove
    one that the original text already ended in. */
module ZeroWidthCarrier {
  import opened Outcome
  import opened Bits
  import opened PyText
  import opened LineCarrier

  type Line = string

  const ZeroWidthSpace: char := '\U{200B}'

  /** The ending that carries a bit. */
  function Ending(bit: Bit): Line {
    if bit == 1 then [ZeroWidthSpace, '\n'] else "\n"
  }

  /** One turn of the embedding loop: the right-stripped line, then the
      bit's ending. A 1 always reads back; a 0 reads back exactly when the
      stripped text does not already end in U+200B, which stripping never
      removes; the stripped text gains U+200B exactly for a 1. */
  function EncodeLine(line: Line, bit: Bit): (r: Line)
    ensures bit == 1 ==> DecodeLine(r) == Some(1)
    ensures bit == 0 ==> (DecodeLine(r) == Some(0) <==> !EndsInZeroWidth(RStrip(line)))
    ensures RStrip(r) == RStrip(line) + (if bit == 1 then [ZeroWidthSpace] else [])
  {
    var s := RStrip(line);
    if bit == 0 then
      DecodeZero(s);
      RStripOfPadded(s, "\n");
      s + Ending(bit)
    else
      DecodeOne(s);
      assert s + [ZeroWidthSpace, '\n'] == (s + [ZeroWidthSpace]) + "\n";
      RStripOfPadded(s + [ZeroWidthSpace], "\n");
      s + Ending(bit)
  }

  /** The extractor's test: every line carries a bit (its other property
      is `DecodeLineSpec`). */
  function DecodeLine(line: Line): (r: Option<Bit>)
    ensures r.Some?
  {
    if EndsWith(line, [ZeroWidthSpace, '\n']) then Some(1) else Some(0)
  }

  /** A line reads as 1 exactly when its last two characters are U+200B and
      LF. */
  lemma DecodeLineSpec(line: Line)
    ensures DecodeLine(line) == Some(1) <==> |line| >= 2 && line[|line| - 2] == ZeroWidthSpace && line[|line| - 1] == '\n'
  {
    if |line| >= 2 {
      assert line[|line| - 2..] == [line[|line| - 2], line[|line| - 1]];
    }
  }

  /** A text that already ends in U+200B. */
  predicate EndsInZeroWidth(text: string) {
    |text| > 0 && text[|text| - 1] == ZeroWidthSpace
  }

  /** A text followed by U+200B and LF reads as 1. */
  lemma DecodeOne(s: string)
    ensures DecodeLine(s + [ZeroWidthSpace, '\n']) == Some(1)
  {
    var e := s + [ZeroWidthSpace, '\n'];
    assert e[|e| - 2..] == [ZeroWidthSpace, '\n'];
  }

  /** A text followed by LF reads as 0 exactly when the text does not end
      in U+200B. */
  lemma DecodeZero(s: string)
    ensures DecodeLine(s + "\n") == Some(0) <==> !EndsInZeroWidth(s)
  {
    var e := s + "\n";
    assert e[|e| - 1] == '\n';
    if |e| >= 2 {
      assert e[|e| - 2] == s[|s| - 1];
    }
  }

  /** `embed_message_in_invisible_chars`. */
  function EmbedMessage(lines: seq<Line>, message: string): (r: Result<Embedded<Line>>)
    ensures r.Err? <==> |TextToBits(message)| > |lines|
    ensures ByteCoded(message) ==> (r.Err? <==> 8 * |message| > |lines|)
    ensures r.Ok? ==> r.value.bitCount == |TextToBits(message)|
    ensures r.Ok? ==> |r.value.lines| == |lines|
    ensures r.Ok? ==> forall k :: r.value.bitCount <= k < |lines| ==> r.value.lines[k] == lines[k]
    ensures r.Ok? ==> forall k :: 0 <= k < r.value.bitCount ==>
              r.value.lines[k] == RStrip(lines[k]) + Ending(TextToBits(message)[k])
    ensures r.Ok? ==> forall k :: 0 <= k < r.value.bitCount && TextToBits(message)[k] == 1 ==>
              DecodeLine(r.value.lines[k]) == Some(1)
  {
    var bits := TextToBits(message);
    if |bits| > |lines| then Err(CapacityExceeded)
    else
      var out := EmbedBits(lines, bits, EncodeLine);
      assert forall k :: 0 <= k < |bits| ==> out[k] == EncodeLine(lines[k], bits[k]);
      Ok(Embedded(out, |bits|))
  }

  /** Every line yields exactly one bit. */
  lemma {:induction false} OneBitPerLine(lines: seq<Line>)
    ensures |DecodedBits(lines, DecodeLine)| == |lines|
    decreases |lines|
  {
    if |lines| > 0 {
      OneBitPerLine(lines[1..]);
    }
  }

  /** Extracting (`extract_message_from_invisible_chars`, the shared
      `LineCarrier.ExtractMessage` with this carrier's `DecodeLine`) gives
      back the message when no line that is to carry a 0 already ends,
      after stripping, in U+200B. */
  lemma RoundTrip(lines: seq<Line>, message: string)
    requires ByteCoded(message)
    requires EmbedMessage(lines, message).Ok?
    requires forall k :: 0 <= k < |TextToBits(message)| && TextToBits(message)[k] == 0 ==>
               !EndsInZeroWidth(RStrip(lines[k]))
    ensures ExtractMessage(EmbedMessage(lines, message).value.lines, |message|, DecodeLine) == message
  {
    var bits := TextToBits(message);
    assert forall k :: 0 <= k < |bits| ==> DecodeLine(EncodeLine(lines[k], bits[k])) == Some(bits[k]);
    ExtractAfterEmbed(lines, message, EncodeLine, DecodeLine);
  }

  /** Without that condition the round trip fails: a line whose text ends
      in U+200B, given bit 0, reads back as 1. */
  lemma ZeroMisreadAfterZeroWidthText()
    ensures DecodeLine(EncodeLine(['x', ZeroWidthSpace, '\n'], 0)) == Some(1)
  {
    var line := ['x', ZeroWidthSpace, '\n'];
    assert IsSpace(line[2]) && !IsSpace(line[1]);
    assert RStrip(line) == line[..2];
  }
}

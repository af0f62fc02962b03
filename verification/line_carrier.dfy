/** The loop shared by the three text-container scripts.

    Each script reads its container as a list of lines, rewrites the first
    `len(bits)` lines so that line k carries bit k, and leaves every other
    line alone. The extractor walks the lines, collects one bit from each
    line it recognises, stops as soon as it holds enough bits, and keeps
    the first `8 * message_length` of them. The scripts differ only in how
    a line is rewritten (`encode`) and how a line is read (`decode`); this
    module states the loop once, for any line type `L`. */
module LineCarrier {
  import opened Arith
  import opened Outcome
  import opened Bits

  /** What an embedder returns: the rewritten lines and the number of bits
      it wrote (`bit_index` in the source). */
  datatype Embedded<L> = Embedded(lines: seq<L>, bitCount: nat)

  /** Line k of the first `|bits|` lines becomes `encode(lines[k], bits[k])`;
      the loop runs over every line and stops rewriting once the bits run out. */
  function EmbedBits<L>(lines: seq<L>, bits: seq<Bit>, encode: (L, Bit) -> L): (r: seq<L>)
    requires |bits| <= |lines|
    ensures |r| == |lines|
    ensures forall k :: 0 <= k < |bits| ==> r[k] == encode(lines[k], bits[k])
    ensures forall k :: |bits| <= k < |lines| ==> r[k] == lines[k]
    decreases |lines|
  {
    if |lines| == 0 then []
    else if |bits| == 0 then [lines[0]] + EmbedBits(lines[1..], bits, encode)
    else [encode(lines[0], bits[0])] + EmbedBits(lines[1..], bits[1..], encode)
  }

  /** Every bit the lines carry, in order: a line `decode` does not
      recognise contributes nothing. */
  function DecodedBits<L>(lines: seq<L>, decode: L -> Option<Bit>): (r: seq<Bit>)
    ensures |r| <= |lines|
    decreases |lines|
  {
    if |lines| == 0 then []
    else
      var head := match decode(lines[0]) case Some(b) => [b] case None => [];
      head + DecodedBits(lines[1..], decode)
  }

  /** Python's `s.endswith(suffix)`. */
  predicate EndsWith<T(==)>(s: seq<T>, suffix: seq<T>) {
    |suffix| <= |s| && s[|s| - |suffix|..] == suffix
  }

  /** Python's `s[:n]` for n >= 0. */
  function Take<T>(s: seq<T>, n: nat): (r: seq<T>)
    ensures |r| == if n <= |s| then n else |s|
    ensures r == s[..|r|]
  {
    if n <= |s| then s[..n] else s
  }

  lemma {:induction false} DecodedBitsAppend<L>(a: seq<L>, b: seq<L>, decode: L -> Option<Bit>)
    ensures DecodedBits(a + b, decode) == DecodedBits(a, decode) + DecodedBits(b, decode)
    decreases |a|
  {
    if |a| == 0 {
      assert a + b == b;
    } else {
      assert (a + b)[1..] == a[1..] + b;
      DecodedBitsAppend(a[1..], b, decode);
    }
  }

  /** The extractor's loop: it reads lines one at a time, appends the bit of
      each recognised line, checks after every line whether it already holds
      `need` bits and stops if so, then keeps the first `need` bits. Stopping
      early gives the same bits as reading every line. */
  method CollectBits<L>(lines: seq<L>, need: nat, decode: L -> Option<Bit>) returns (bits: seq<Bit>)
    ensures bits == Take(DecodedBits(lines, decode), need)
  {
    var collected: seq<Bit> := [];
    var i := 0;
    while i < |lines|
      invariant 0 <= i <= |lines|
      invariant collected == DecodedBits(lines[..i], decode)
      invariant i > 0 ==> |collected| < need
    {
      DecodedBitsAppend(lines[..i], [lines[i]], decode);
      assert lines[..i + 1] == lines[..i] + [lines[i]];
      match decode(lines[i]) {
        case Some(b) => collected := collected + [b];
        case None =>
      }
      i := i + 1;
      if |collected| >= need {
        break;
      }
    }
    assert lines == lines[..i] + lines[i..];
    DecodedBitsAppend(lines[..i], lines[i..], decode);
    bits := Take(collected, need);
  }

  /** Reading back what `EmbedBits` wrote: when every rewritten line reads
      as the bit it was given, the first `|bits|` bits the lines carry are
      exactly `bits`, whatever the remaining lines hold. */
  lemma {:induction false} CollectAfterEmbed<L>(lines: seq<L>, bits: seq<Bit>,
                                                encode: (L, Bit) -> L, decode: L -> Option<Bit>)
    requires |bits| <= |lines|
    requires forall k :: 0 <= k < |bits| ==> decode(encode(lines[k], bits[k])) == Some(bits[k])
    ensures Take(DecodedBits(EmbedBits(lines, bits, encode), decode), |bits|) == bits
    decreases |bits|
  {
    var out := EmbedBits(lines, bits, encode);
    if |bits| > 0 {
      var rest := EmbedBits(lines[1..], bits[1..], encode);
      assert out == [out[0]] + out[1..];
      assert out[1..] == rest by {
        forall k | 0 <= k < |rest| ensures out[1..][k] == rest[k] {
          if k < |bits| - 1 {
            assert out[k + 1] == encode(lines[k + 1], bits[k + 1]);
          } else {
            assert out[k + 1] == lines[k + 1];
          }
        }
      }
      assert decode(out[0]) == Some(bits[0]);
      assert DecodedBits(out, decode) == [bits[0]] + DecodedBits(rest, decode);
      CollectAfterEmbed(lines[1..], bits[1..], encode, decode);
      assert bits == [bits[0]] + bits[1..];
    }
  }

  /** The three extractors: the bits of the recognised lines, cut to
      `8 * messageLength`, decoded as text. `CollectBits` shows that stopping
      the loop early yields the same bits. */
  function ExtractMessage<L>(lines: seq<L>, messageLength: nat, decode: L -> Option<Bit>): (t: string)
    ensures |t| <= messageLength
    ensures |t| <= (|lines| + 7) / 8
    ensures ByteCoded(t)
  {
    var bits := Take(DecodedBits(lines, decode), 8 * messageLength);
    DivMonotone(|bits| + 7, |lines| + 7, 8);
    BitsToText(bits)
  }

  /** The round trip of every line carrier: when each rewritten line reads
      back as its bit, extracting with the message's length gives back the
      message. */
  lemma ExtractAfterEmbed<L>(lines: seq<L>, message: string,
                             encode: (L, Bit) -> L, decode: L -> Option<Bit>)
    requires ByteCoded(message)
    requires |TextToBits(message)| <= |lines|
    requires forall k :: 0 <= k < |TextToBits(message)| ==>
               decode(encode(lines[k], TextToBits(message)[k])) == Some(TextToBits(message)[k])
    ensures ExtractMessage(EmbedBits(lines, TextToBits(message), encode), |message|, decode) == message
  {
    CollectAfterEmbed(lines, TextToBits(message), encode, decode);
    TextRoundTrip(message);
  }

  /** `calculate_capacity_and_efficiency`: one bit per line, and the share
      of that capacity a message of `messageLength` characters uses
      (0 for an empty container). */
  function CapacityAndEfficiency(lineCount: nat, messageLength: nat): (r: (nat, real))
    ensures r.0 == lineCount
    ensures lineCount > 0 ==> r.1 * lineCount as real == (8 * messageLength) as real
    ensures lineCount == 0 ==> r.1 == 0.0
  {
    if lineCount > 0 then (lineCount, (8 * messageLength) as real / lineCount as real)
    else (lineCount, 0.0)
  }

  /** A message the embedder accepted never uses more than the whole
      capacity. */
  lemma AcceptedMessageFits(lineCount: nat, message: string)
    requires |TextToBits(message)| <= lineCount
    ensures 0.0 <= CapacityAndEfficiency(lineCount, |message|).1 <= 1.0
  {
    assert 8 * |message| <= lineCount;
    ShareAtMostOne(lineCount, |message|);
  }

  /** A message of at most `lineCount / 8` characters uses at most the
      whole capacity. */
  lemma ShareAtMostOne(lineCount: nat, messageLength: nat)
    requires 8 * messageLength <= lineCount
    ensures 0.0 <= CapacityAndEfficiency(lineCount, messageLength).1 <= 1.0
  {
    if lineCount > 0 {
      var x := (8 * messageLength) as real;
      var y := lineCount as real;
      assert x <= y;
      DivAtMostOne(x, y);
    }
  }

  lemma DivAtMostOne(x: real, y: real)
    requires 0.0 <= x <= y
    requires y > 0.0
    ensures 0.0 <= x / y <= 1.0
  {
    assert x / y == x * (1.0 / y);
  }
}

/** lab03/lab03.py: one bit per pair of pixels of channel 0, carried by
    which of the two is larger.

    Channel 0 of the RGB image is kept as one row-major sequence: pixel
    (x, y) of an image `width` pixels wide sits at index x * width + y. For
    bit k the program draws two pixels from a key-seeded generator, each
    coordinate uniformly in range; the model takes that stream as a
    parameter `pick` of index pairs, the same for embedding and extraction.
    Bit 1 is written by swapping the two values if the first is larger, bit
    0 by swapping them if the first is smaller; the extractor reads 0 when
    the first value is larger and 1 otherwise. The pairs are drawn
    independently, so two pairs may share a pixel, and both pixels of a pair
    may be the same one. */
module PixelSwap {
  import opened Bits

  /** Channel 0 of the image. */
  type Plane = seq<Byte>

  /** The two pixels drawn for one bit, as indices into the plane. */
  datatype PixelPair = PixelPair(first: nat, second: nat)

  predicate InPlane(p: Plane, pair: PixelPair) {
    pair.first < |p| && pair.second < |p|
  }

  /** Exchanging the values at two indices. */
  function Swap(p: Plane, i: nat, j: nat): (r: Plane)
    requires i < |p| && j < |p|
    ensures |r| == |p| && r[i] == p[j] && r[j] == p[i]
    ensures forall n :: 0 <= n < |p| && n != i && n != j ==> r[n] == p[n]
  {
    p[i := p[j]][j := p[i]]
  }

  /** Exchanging two values keeps the multiset of values. */
  lemma SwapPermutes(p: Plane, i: nat, j: nat)
    requires i < |p| && j < |p|
    ensures multiset(Swap(p, i, j)) == multiset(p)
  {
    var u := p[i := p[j]];
    if i != j {
      assert multiset(u) == multiset(p) - multiset{p[i]} + multiset{p[j]};
      assert multiset(u[j := p[i]]) == multiset(u) - multiset{u[j]} + multiset{p[i]};
    } else {
      assert Swap(p, i, j) == p;
    }
  }

  /** The embedding rule for one pair. */
  function SwapStep(p: Plane, pair: PixelPair, bit: Bit): (r: Plane)
    requires InPlane(p, pair)
    ensures |r| == |p|
    ensures bit == 1 ==> r[pair.first] <= r[pair.second]
    ensures bit == 0 ==> r[pair.first] >= r[pair.second]
    ensures || (r[pair.first], r[pair.second]) == (p[pair.first], p[pair.second])
            || (r[pair.first], r[pair.second]) == (p[pair.second], p[pair.first])
    ensures forall n :: 0 <= n < |p| && n != pair.first && n != pair.second ==> r[n] == p[n]
  {
    var a, b := p[pair.first], p[pair.second];
    if (bit == 1 && a > b) || (bit == 0 && a < b) then Swap(p, pair.first, pair.second) else p
  }

  /** A pair whose two pixels are the same one is left alone. */
  lemma SameSampleNoOp(p: Plane, pair: PixelPair, bit: Bit)
    requires InPlane(p, pair) && pair.first == pair.second
    ensures SwapStep(p, pair, bit) == p
  {
  }

  /** The extraction rule for one pair: 0 when the first value is the
      larger. Every pair already shows the bit it reads as, so a step
      writing that bit leaves the plane alone. */
  function DecodePair(p: Plane, pair: PixelPair): (bit: Bit)
    requires InPlane(p, pair)
    ensures SwapStep(p, pair, bit) == p
  {
    if p[pair.first] > p[pair.second] then 0 else 1
  }

  /** A pair rewritten for bit 1 always reads 1; one rewritten for bit 0
      reads 0 exactly when its two values differ (never when both pixels
      are the same one). */
  lemma StepDecodes(p: Plane, pair: PixelPair)
    requires InPlane(p, pair)
    ensures DecodePair(SwapStep(p, pair, 1), pair) == 1
    ensures DecodePair(SwapStep(p, pair, 0), pair) == 0 <==> p[pair.first] != p[pair.second]
  {
  }

  /** Every pair the first n bits use lies inside the plane. */
  predicate StreamInPlane(p: Plane, pick: nat -> PixelPair, n: nat) {
    forall k: nat :: k < n ==> InPlane(p, pick(k))
  }

  /** The embedding loop after n bits: each step rewrites the plane left by
      the one before. */
  function Steps(p: Plane, bits: seq<Bit>, pick: nat -> PixelPair, n: nat): (r: Plane)
    requires n <= |bits| && StreamInPlane(p, pick, n)
    ensures |r| == |p|
  {
    if n == 0 then p
    else SwapStep(Steps(p, bits, pick, n - 1), pick(n - 1), bits[n - 1])
  }

  /** The embedding loop only rearranges the plane's values. */
  lemma {:induction false} StepsPermute(p: Plane, bits: seq<Bit>, pick: nat -> PixelPair, n: nat)
    requires n <= |bits| && StreamInPlane(p, pick, n)
    ensures multiset(Steps(p, bits, pick, n)) == multiset(p)
    decreases n
  {
    if n > 0 {
      var prev := Steps(p, bits, pick, n - 1);
      var pair := pick(n - 1);
      StepsPermute(p, bits, pick, n - 1);
      SwapPermutes(prev, pair.first, pair.second);
    }
  }

  /** One more turn of the embedding loop. */
  lemma StepsNext(p: Plane, bits: seq<Bit>, pick: nat -> PixelPair, k: nat)
    requires k < |bits| && StreamInPlane(p, pick, k + 1)
    ensures InPlane(Steps(p, bits, pick, k), pick(k))
    ensures Steps(p, bits, pick, k + 1) == SwapStep(Steps(p, bits, pick, k), pick(k), bits[k])
  {
  }

  /** The embedding loop over a bit string. */
  method EmbedBits(p: Plane, bits: seq<Bit>, pick: nat -> PixelPair) returns (out: Plane)
    requires StreamInPlane(p, pick, |bits|)
    ensures out == Steps(p, bits, pick, |bits|)
    ensures multiset(out) == multiset(p)
  {
    out := p;
    var k := 0;
    while k < |bits|
      invariant k <= |bits|
      invariant out == Steps(p, bits, pick, k)
    {
      StepsNext(p, bits, pick, k);
      out := SwapStep(out, pick(k), bits[k]);
      k := k + 1;
    }
    StepsPermute(p, bits, pick, |bits|);
  }

  /** `embed_message`, without the file I/O: the loop over the message's
      bits; it returns the number of bits. */
  method EmbedMessage(p: Plane, message: string, pick: nat -> PixelPair) returns (out: Plane, bitCount: nat)
    requires StreamInPlane(p, pick, |TextToBits(message)|)
    ensures bitCount == |TextToBits(message)|
    ensures out == Steps(p, TextToBits(message), pick, bitCount)
    ensures multiset(out) == multiset(p)
  {
    var bits := TextToBits(message);
    out := EmbedBits(p, bits, pick);
    bitCount := |bits|;
  }

  /** The first n bits read from the plane. */
  function ReadPairs(p: Plane, pick: nat -> PixelPair, n: nat): (bits: seq<Bit>)
    requires StreamInPlane(p, pick, n)
    ensures |bits| == n
  {
    seq(n, k requires 0 <= k < n => DecodePair(p, pick(k)))
  }

  /** `extract_message`: `messageLength` counts bits; the bits are grouped
      by eight, a trailing partial group included. */
  function ExtractMessage(p: Plane, messageLength: nat, pick: nat -> PixelPair): (t: string)
    requires StreamInPlane(p, pick, messageLength)
    ensures |t| == (messageLength + 7) / 8
    ensures ByteCoded(t)
  {
    BitsToText(ReadPairs(p, pick, messageLength))
  }

  predicate Touches(pair: PixelPair, n: nat) {
    n == pair.first || n == pair.second
  }

  /** The first n pairs use two different pixels each and share no pixel
      with each other. */
  predicate Separate(pick: nat -> PixelPair, n: nat) {
    && (forall k: nat :: k < n ==> pick(k).first != pick(k).second)
    && (forall j: nat, k: nat :: j < k < n ==> !Touches(pick(k), pick(j).first) && !Touches(pick(k), pick(j).second))
  }

  /** Every pair written for a 0 had two different values. */
  predicate ZeroPairsDiffer(p: Plane, bits: seq<Bit>, pick: nat -> PixelPair) {
    forall k: nat :: k < |bits| && bits[k] == 0 && InPlane(p, pick(k)) ==>
      p[pick(k).first] != p[pick(k).second]
  }

  /** A pixel no step touches keeps its value. */
  lemma {:induction false} StepsFrame(p: Plane, bits: seq<Bit>, pick: nat -> PixelPair, n: nat, i: nat)
    requires n <= |bits| && StreamInPlane(p, pick, n) && i < |p|
    requires forall k: nat :: k < n ==> !Touches(pick(k), i)
    ensures Steps(p, bits, pick, n)[i] == p[i]
    decreases n
  {
    if n > 0 {
      StepsFrame(p, bits, pick, n - 1, i);
    }
  }

  /** A step over a pair that shares no pixel with q leaves q's reading. */
  lemma StepKeepsOthers(prev: Plane, pair: PixelPair, bit: Bit, q: PixelPair)
    requires InPlane(prev, pair) && InPlane(prev, q)
    requires !Touches(pair, q.first) && !Touches(pair, q.second)
    ensures DecodePair(SwapStep(prev, pair, bit), q) == DecodePair(prev, q)
  {
  }

  /** Over separate pairs, no earlier step touches the last pair. */
  lemma LastPairUntouched(pick: nat -> PixelPair, n: nat)
    requires 0 < n && Separate(pick, n)
    ensures forall k: nat :: k < n - 1 ==> !Touches(pick(k), pick(n - 1).first) && !Touches(pick(k), pick(n - 1).second)
  {
    forall k: nat | k < n - 1
      ensures !Touches(pick(k), pick(n - 1).first) && !Touches(pick(k), pick(n - 1).second) {
      assert !Touches(pick(n - 1), pick(k).first) && !Touches(pick(n - 1), pick(k).second);
    }
  }

  /** So the last pair still holds its original values when its turn
      comes. */
  lemma LastPairKept(p: Plane, bits: seq<Bit>, pick: nat -> PixelPair, n: nat)
    requires 0 < n <= |bits| && StreamInPlane(p, pick, n) && Separate(pick, n)
    ensures InPlane(p, pick(n - 1))
    ensures Steps(p, bits, pick, n - 1)[pick(n - 1).first] == p[pick(n - 1).first]
    ensures Steps(p, bits, pick, n - 1)[pick(n - 1).second] == p[pick(n - 1).second]
  {
    var pair := pick(n - 1);
    LastPairUntouched(pick, n);
    StepsFrame(p, bits, pick, n - 1, pair.first);
    StepsFrame(p, bits, pick, n - 1, pair.second);
  }

  /** The last of n steps over separate pairs reads as its bit. */
  lemma StepsDecodeLast(p: Plane, bits: seq<Bit>, pick: nat -> PixelPair, n: nat)
    requires 0 < n <= |bits| && StreamInPlane(p, pick, n)
    requires Separate(pick, n) && ZeroPairsDiffer(p, bits, pick)
    ensures DecodePair(Steps(p, bits, pick, n), pick(n - 1)) == bits[n - 1]
  {
    var pair := pick(n - 1);
    var prev := Steps(p, bits, pick, n - 1);
    LastPairKept(p, bits, pick, n);
    StepDecodes(prev, pair);
    assert bits[n - 1] == 0 ==> prev[pair.first] != prev[pair.second];
  }

  /** After n steps over separate pairs, every pair reads as its bit. */
  lemma {:induction false} StepsDecode(p: Plane, bits: seq<Bit>, pick: nat -> PixelPair, n: nat)
    requires n <= |bits| && StreamInPlane(p, pick, n)
    requires Separate(pick, n) && ZeroPairsDiffer(p, bits, pick)
    ensures forall k: nat :: k < n ==> DecodePair(Steps(p, bits, pick, n), pick(k)) == bits[k]
    decreases n
  {
    if n > 0 {
      var prev := Steps(p, bits, pick, n - 1);
      var pair := pick(n - 1);
      StepsDecode(p, bits, pick, n - 1);
      StepsDecodeLast(p, bits, pick, n);
      forall k: nat | k < n - 1
        ensures DecodePair(Steps(p, bits, pick, n), pick(k)) == bits[k] {
        StepKeepsOthers(prev, pair, bits[n - 1], pick(k));
      }
    }
  }

  /** Extracting `8 * |message|` bits from the embedder's output gives back
      the message when the pairs are separate and every pair written for a
      0 had two different values. */
  lemma RoundTrip(p: Plane, message: string, pick: nat -> PixelPair)
    requires ByteCoded(message)
    requires StreamInPlane(p, pick, |TextToBits(message)|)
    requires Separate(pick, |TextToBits(message)|)
    requires ZeroPairsDiffer(p, TextToBits(message), pick)
    ensures var bits := TextToBits(message);
            ExtractMessage(Steps(p, bits, pick, |bits|), |bits|, pick) == message
  {
    var bits := TextToBits(message);
    var out := Steps(p, bits, pick, |bits|);
    StepsDecode(p, bits, pick, |bits|);
    assert ReadPairs(out, pick, |bits|) == bits;
    TextRoundTrip(message);
  }

  /** The first pair (0, 1), every later one (1, 0). */
  function CrossedPairs(k: nat): PixelPair {
    if k == 0 then PixelPair(0, 1) else PixelPair(1, 0)
  }

  /** Two pairs that share pixels can undo each other: on the plane [1, 2],
      two 0 bits written into the same two pixels, the second time in the
      other order, leave the first pair reading 1. */
  lemma OverlapCorrupts()
    ensures StreamInPlane([1, 2], CrossedPairs, 2)
    ensures DecodePair(Steps([1, 2], [0, 0], CrossedPairs, 2), CrossedPairs(0)) == 1
  {
    var p: Plane := [1, 2];
    var once := Steps(p, [0, 0], CrossedPairs, 1);
    assert once == SwapStep(p, PixelPair(0, 1), 0);
    assert once == [2, 1];
    assert Steps(p, [0, 0], CrossedPairs, 2) == SwapStep(once, PixelPair(1, 0), 0);
  }
}

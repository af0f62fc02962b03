/** lab03/lab03final.py: the Koch scheme, one bit per 8x8 block.

    The image's three channels are each cut into the full 8x8 blocks of
    `BlockGrid.FullBlockOrigins`; the block list is channel 0's blocks in
    row-major order, then channel 1's, then channel 2's. Bit idx goes into
    block idx: in the block's transform, bit 0 is "coefficient (3,4) above
    coefficient (4,3)" and bit 1 the reverse. A block that does not show
    the relation is pushed past it by `threshold` plus the current gap,
    adding to one coefficient what it takes from the other.

    The model works on the transform-domain view: for each block reference
    (corner and channel), the block's 64 coefficients. */
module Koch {
  import opened Arith
  import opened Outcome
  import opened Bits
  import opened BlockGrid
  import opened Coefficients

  /** `dct_pairs[0]`. */
  const Pos1: Coord := Coord(3, 4)
  const Pos2: Coord := Coord(4, 3)

  /** `_embed_bit`. */
  function EmbedBit(b: Block, bit: Bit, threshold: real): (r: Block)
    ensures forall c: Coord :: c.InBlock() && c != Pos1 && c != Pos2 ==> At(r, c) == At(b, c)
    ensures At(r, Pos1) + At(r, Pos2) == At(b, Pos1) + At(b, Pos2)
    ensures bit == 0 && At(b, Pos1) > At(b, Pos2) ==> r == b
    ensures bit == 1 && At(b, Pos1) < At(b, Pos2) ==> r == b
    ensures bit == 0 && At(b, Pos1) <= At(b, Pos2) ==> At(r, Pos1) - At(r, Pos2) >= 2.0 * threshold
    ensures bit == 1 && At(b, Pos1) >= At(b, Pos2) ==> At(r, Pos1) - At(r, Pos2) <= -2.0 * threshold
  {
    var p1, p2 := At(b, Pos1), At(b, Pos2);
    if bit == 0 then
      if p1 <= p2 then
        var adjustment := threshold + Abs(p1 - p2);
        Put(Put(b, Pos1, p1 + adjustment), Pos2, p2 - adjustment)
      else b
    else
      if p1 >= p2 then
        var adjustment := threshold + Abs(p1 - p2);
        Put(Put(b, Pos1, p1 - adjustment), Pos2, p2 + adjustment)
      else b
  }

  /** `_extract_bit`: 0 when coefficient (3,4) is the larger. A block whose
      two coefficients differ already shows the bit it reads as, so
      embedding that bit again leaves it alone, whatever the threshold. */
  function ExtractBit(b: Block): (bit: Bit)
    ensures At(b, Pos1) != At(b, Pos2) ==> forall threshold :: EmbedBit(b, bit, threshold) == b
  {
    if At(b, Pos1) > At(b, Pos2) then 0 else 1
  }

  /** The per-block rule of the embedding loop. */
  function Rule(threshold: real): (Block, Bit, nat) -> Block {
    (b, bit, i) => EmbedBit(b, bit, threshold)
  }

  /** The per-block rule of the extraction loop. */
  function ReadRule(b: Block, i: nat): Bit {
    ExtractBit(b)
  }

  /** What the extractor reads from a block the embedder just wrote: a 1
      always reads back for a non-negative threshold; a 0 reads back exactly
      when the block already showed it or the pushed gap is positive, which
      for a non-negative threshold fails only when the threshold is 0 and
      the two coefficients were equal. */
  lemma ExtractAfterEmbed(b: Block, threshold: real)
    ensures threshold >= 0.0 ==> ExtractBit(EmbedBit(b, 1, threshold)) == 1
    ensures ExtractBit(EmbedBit(b, 0, threshold)) == 0 <==>
              At(b, Pos1) > At(b, Pos2) || 2.0 * threshold + (At(b, Pos2) - At(b, Pos1)) > 0.0
    ensures threshold >= 0.0 ==>
              (ExtractBit(EmbedBit(b, 0, threshold)) == 0 <==> threshold > 0.0 || At(b, Pos1) != At(b, Pos2))
  {
  }

  /** A block of one channel. */
  datatype BlockRef = BlockRef(origin: Origin, channel: nat)

  function ChannelRefs(origins: seq<Origin>, channel: nat): (refs: seq<BlockRef>)
    ensures |refs| == |origins|
  {
    seq(|origins|, i requires 0 <= i < |origins| => BlockRef(origins[i], channel))
  }

  /** The block list of `embed_message` and `extract_message`: the blocks of
      channel 0, then of channel 1, then of channel 2. */
  function BlockRefs(h: nat, w: nat): (refs: seq<BlockRef>)
    ensures |refs| == 3 * |FullBlockOrigins(h, w)|
  {
    var origins := FullBlockOrigins(h, w);
    ChannelRefs(origins, 0) + ChannelRefs(origins, 1) + ChannelRefs(origins, 2)
  }

  /** Block idx is block idx mod N of channel idx div N, N being the number
      of full blocks per channel. */
  lemma BlockRefAt(h: nat, w: nat, idx: nat)
    requires idx < |BlockRefs(h, w)|
    ensures |FullBlockOrigins(h, w)| > 0
    ensures idx % |FullBlockOrigins(h, w)| < |FullBlockOrigins(h, w)|
    ensures BlockRefs(h, w)[idx]
              == BlockRef(FullBlockOrigins(h, w)[idx % |FullBlockOrigins(h, w)|], idx / |FullBlockOrigins(h, w)|)
  {
    var origins := FullBlockOrigins(h, w);
    var n := |origins|;
    var refs := BlockRefs(h, w);
    var k := if idx < n then 0 else if idx < 2 * n then 1 else 2;
    var rem := idx - k * n;
    assert 0 <= rem < n;
    DivModOfSum(k, n, rem);
    assert refs[idx] == ChannelRefs(origins, k)[rem];
  }

  /** No block appears twice in the block list. */
  lemma BlockRefsDistinct(h: nat, w: nat)
    ensures Distinct(BlockRefs(h, w))
  {
    var origins := FullBlockOrigins(h, w);
    var n := |origins|;
    var refs := BlockRefs(h, w);
    GridDistinct(h / 8, w / 8);
    forall i, j | 0 <= i < j < |refs| ensures refs[i] != refs[j] {
      BlockRefAt(h, w, i);
      BlockRefAt(h, w, j);
      if i / n == j / n && i % n == j % n {
        DivModInjective(i, j, n);
      }
    }
  }

  /** The block list: three blocks per full block of a channel, block idx
      being block idx mod N of channel idx div N, N the number of full
      blocks per channel, and no block appearing twice. */
  lemma BlockRefsSpec(h: nat, w: nat)
    ensures |BlockRefs(h, w)| == 3 * ((h / 8) * (w / 8))
    ensures forall idx :: 0 <= idx < |BlockRefs(h, w)| ==>
              var n := |FullBlockOrigins(h, w)|;
              BlockRefs(h, w)[idx] == BlockRef(FullBlockOrigins(h, w)[idx % n], idx / n)
    ensures Distinct(BlockRefs(h, w))
  {
    forall idx | 0 <= idx < |BlockRefs(h, w)|
      ensures BlockRefs(h, w)[idx] == BlockRef(FullBlockOrigins(h, w)[idx % |FullBlockOrigins(h, w)|], idx / |FullBlockOrigins(h, w)|) {
      BlockRefAt(h, w, idx);
    }
    BlockRefsDistinct(h, w);
  }

  /** The transform-domain view holds every block of the block list. */
  predicate CoversBlocks(view: map<BlockRef, Block>, h: nat, w: nat) {
    forall ref :: ref in BlockRefs(h, w) ==> ref in view
  }

  /** `embed_message`, without the transform, the clipping and the file
      I/O: refused before any write when the three channels together have
      fewer blocks than the message has bits; otherwise block idx receives
      bit idx and every other block keeps its coefficients. */
  function EmbedMessage(h: nat, w: nat, view: map<BlockRef, Block>, message: string,
                        threshold: real): (r: Result<map<BlockRef, Block>>)
    requires CoversBlocks(view, h, w)
    ensures r.Err? <==> 3 * ((h / 8) * (w / 8)) < |TextToBits(message)|
    ensures ByteCoded(message) ==> (r.Err? <==> 3 * ((h / 8) * (w / 8)) < 8 * |message|)
    ensures r.Ok? ==> r.value.Keys == view.Keys
    ensures r.Ok? ==> forall idx :: 0 <= idx < |TextToBits(message)| ==>
              r.value[BlockRefs(h, w)[idx]]
                == EmbedBit(view[BlockRefs(h, w)[idx]], TextToBits(message)[idx], threshold)
    ensures r.Ok? ==> forall ref :: ref in view && ref !in BlockRefs(h, w)[..|TextToBits(message)|] ==>
              r.value[ref] == view[ref]
  {
    var bits := TextToBits(message);
    var refs := BlockRefs(h, w);
    assert |refs| == 3 * ((h / 8) * (w / 8));
    assert ByteCoded(message) ==> |bits| == 8 * |message|;
    if |refs| < |bits| then Err(CapacityExceeded)
    else
      BlockRefsDistinct(h, w);
      WriteAll(view, refs, bits, Rule(threshold));
      Ok(WriteInOrder(view, refs, bits, Rule(threshold), 0))
  }

  /** `extract_message`: reads `min(8 * messageLength, blocks)` bits in
      block-list order and decodes only the complete groups of eight. */
  function ExtractMessage(h: nat, w: nat, view: map<BlockRef, Block>, messageLength: nat): (t: string)
    requires CoversBlocks(view, h, w)
    ensures |t| == Min(8 * messageLength, 3 * ((h / 8) * (w / 8))) / 8
  {
    var refs := BlockRefs(h, w);
    BlockRefsSpec(h, w);
    var count := Min(8 * messageLength, |refs|);
    CompleteGroupsToText(ReadInOrder(view, refs, count, ReadRule))
  }

  /** With a positive threshold, the extraction rule reads back whatever
      bit the embedding rule wrote. */
  lemma RuleReadsBack(threshold: real, b: Block, bit: Bit, i: nat)
    requires threshold > 0.0
    ensures ReadRule(Rule(threshold)(b, bit, i), i) == bit
  {
    ExtractAfterEmbed(b, threshold);
  }

  /** An accepted message is written by the embedding loop over the block
      list. */
  lemma EmbedWrites(h: nat, w: nat, view: map<BlockRef, Block>, message: string, threshold: real)
    requires CoversBlocks(view, h, w)
    requires EmbedMessage(h, w, view, message, threshold).Ok?
    ensures |TextToBits(message)| <= |BlockRefs(h, w)|
    ensures forall i :: 0 <= i < |TextToBits(message)| ==> BlockRefs(h, w)[i] in view
    ensures Distinct(BlockRefs(h, w))
    ensures EmbedMessage(h, w, view, message, threshold).value
              == WriteInOrder(view, BlockRefs(h, w), TextToBits(message), Rule(threshold), 0)
  {
    BlockRefsSpec(h, w);
  }

  /** With a positive threshold, every written block reads back as its bit. */
  lemma ReadBack(h: nat, w: nat, view: map<BlockRef, Block>, message: string, threshold: real)
    requires CoversBlocks(view, h, w)
    requires threshold > 0.0
    requires EmbedMessage(h, w, view, message, threshold).Ok?
    ensures |TextToBits(message)| <= |BlockRefs(h, w)|
    ensures ReadInOrder(EmbedMessage(h, w, view, message, threshold).value, BlockRefs(h, w),
                        |TextToBits(message)|, ReadRule) == TextToBits(message)
  {
    var bits := TextToBits(message);
    var refs := BlockRefs(h, w);
    EmbedWrites(h, w, view, message, threshold);
    forall i | 0 <= i < |bits| ensures ReadRule(Rule(threshold)(view[refs[i]], bits[i], i), i) == bits[i] {
      RuleReadsBack(threshold, view[refs[i]], bits[i], i);
    }
    ReadAfterWrite(view, refs, bits, Rule(threshold), ReadRule);
  }

  /** With a positive threshold, extracting from the embedder's output with
      the message's length returns the message. */
  lemma RoundTrip(h: nat, w: nat, view: map<BlockRef, Block>, message: string, threshold: real)
    requires CoversBlocks(view, h, w)
    requires ByteCoded(message)
    requires threshold > 0.0
    requires EmbedMessage(h, w, view, message, threshold).Ok?
    ensures ExtractMessage(h, w, EmbedMessage(h, w, view, message, threshold).value, |message|) == message
  {
    var bits := TextToBits(message);
    ReadBack(h, w, view, message, threshold);
    assert |bits| == |message| * 8 + 0;
    assert Min(8 * |message|, |BlockRefs(h, w)|) == |bits|;
    DivModOfSum(|message|, 8, 0);
    CompleteGroupsAgree(bits);
    TextRoundTrip(message);
  }
}

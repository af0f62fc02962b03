/** lab03/lab03secret.py: one bit per 8x8 block of the luma plane, carried
    by the difference of the magnitudes of two transform coefficients.

    The blocks are all corners aligned to 8 (`BlockGrid.AlignedOrigins`),
    visited in a key-seeded shuffled order; the model takes that order as a
    parameter, any rearrangement of the corner list. Bit k goes into the
    k-th visited block, using the coefficient pair k of a six-entry rotation.
    With margin = |c1| - |c2|, the extractor reads 0 when margin > M0 and 1
    otherwise. The embedder moves `alpha` from one coefficient to the other
    when the block does not already read as the wanted bit.

    A block at the bottom or right edge of an image whose side is not a
    multiple of 8 is cut short, and its transform has fewer than 8 rows or
    columns; indexing a missing coefficient raises an IndexError. */
module SecretDct {
  import opened Arith
  import opened Outcome
  import opened Bits
  import opened BlockGrid
  import opened Coefficients

  /** `dct_indices`. */
  const DctIndices: seq<Coord> := [Coord(3, 4), Coord(4, 3), Coord(3, 5), Coord(5, 3), Coord(4, 5), Coord(5, 4)]

  /** `idx1, idx2` for bit k: entries k and k + 1 of the rotation, mod 6. */
  function PairFor(k: nat): (p: (Coord, Coord))
    ensures p.0.InBlock() && p.1.InBlock() && p.0 != p.1
    ensures 3 <= p.0.row <= 5 && 3 <= p.0.col <= 5 && 3 <= p.1.row <= 5 && 3 <= p.1.col <= 5
  {
    (DctIndices[k % 6], DctIndices[(k + 1) % 6])
  }

  /** The rotation: the second coefficient of bit k is the first one of bit
      k + 1, and the pairs repeat every six bits. */
  lemma PairRotation(k: nat)
    ensures PairFor(k).1 == PairFor(k + 1).0
    ensures PairFor(k + 6) == PairFor(k)
  {
    DivModOfSum(k / 6, 6, k % 6);
    DivModOfSum(k / 6 + 1, 6, k % 6);
    assert k + 6 == (k / 6 + 1) * 6 + k % 6;
  }

  /** `abs(coef1) - abs(coef2)`. */
  function Margin(b: Block, k: nat): real {
    Abs(At(b, PairFor(k).0)) - Abs(At(b, PairFor(k).1))
  }

  /** The extractor's rule: 0 when the margin exceeds M0. Every block
      already shows the bit it reads as, so embedding that bit again leaves
      it alone, whatever alpha. */
  function DecodeBit(b: Block, k: nat, m0: real): (bit: Bit)
    ensures forall alpha :: EmbedBit(b, bit, k, alpha, m0) == b
  {
    if Margin(b, k) > m0 then 0 else 1
  }

  /** The embedder's rule for bit k: what it takes from one coefficient of
      the pair it gives to the other (its other properties are
      `EmbedBitSpec`). */
  function EmbedBit(b: Block, bit: Bit, k: nat, alpha: real, m0: real): (r: Block)
    ensures At(r, PairFor(k).0) + At(r, PairFor(k).1) == At(b, PairFor(k).0) + At(b, PairFor(k).1)
  {
    var (p1, p2) := PairFor(k);
    var c1, c2 := At(b, p1), At(b, p2);
    if bit == 0 then
      if Abs(c1) - Abs(c2) <= m0 then Put(Put(b, p1, c1 + alpha), p2, c2 - alpha) else b
    else
      if Abs(c1) - Abs(c2) > m0 then Put(Put(b, p1, c1 - alpha), p2, c2 + alpha) else b
  }

  /** The rule touches only the pair's two coefficients and keeps their
      sum; it leaves a block that already reads as the bit alone, and
      otherwise moves `alpha` into the first coefficient for a 0 and out of
      it for a 1. */
  lemma EmbedBitSpec(b: Block, bit: Bit, k: nat, alpha: real, m0: real)
    ensures var r := EmbedBit(b, bit, k, alpha, m0);
            forall c: Coord :: c.InBlock() && c != PairFor(k).0 && c != PairFor(k).1 ==> At(r, c) == At(b, c)
    ensures var r := EmbedBit(b, bit, k, alpha, m0);
            At(r, PairFor(k).0) + At(r, PairFor(k).1) == At(b, PairFor(k).0) + At(b, PairFor(k).1)
    ensures DecodeBit(b, k, m0) == bit ==> EmbedBit(b, bit, k, alpha, m0) == b
    ensures DecodeBit(b, k, m0) != bit ==>
              At(EmbedBit(b, bit, k, alpha, m0), PairFor(k).0) - At(b, PairFor(k).0)
                == (if bit == 0 then alpha else -alpha)
  {
  }

  /** The block, rewritten for bit k, reads back as that bit. */
  predicate Carries(b: Block, bit: Bit, k: nat, alpha: real, m0: real) {
    DecodeBit(EmbedBit(b, bit, k, alpha, m0), k, m0) == bit
  }

  /** When a block carries its bit, in terms of the two coefficients: either
      it already read as the bit, or moving `alpha` pushes the margin across
      M0 in the wanted direction. */
  lemma CarriesExactly(b: Block, bit: Bit, k: nat, alpha: real, m0: real)
    ensures var c1, c2 := At(b, PairFor(k).0), At(b, PairFor(k).1);
            Carries(b, bit, k, alpha, m0) <==>
              if bit == 0 then Abs(c1) - Abs(c2) > m0 || Abs(c1 + alpha) - Abs(c2 - alpha) > m0
              else Abs(c1) - Abs(c2) <= m0 || Abs(c1 - alpha) - Abs(c2 + alpha) <= m0
  {
  }

  /** One rewrite moves the margin by at most 2 * alpha. */
  lemma MarginStep(b: Block, bit: Bit, k: nat, alpha: real, m0: real)
    requires alpha >= 0.0
    ensures Abs(Margin(EmbedBit(b, bit, k, alpha, m0), k) - Margin(b, k)) <= 2.0 * alpha
  {
    var r := EmbedBit(b, bit, k, alpha, m0);
    var (p1, p2) := PairFor(k);
    if DecodeBit(b, k, m0) != bit {
      var d := if bit == 0 then alpha else -alpha;
      assert At(r, p1) == At(b, p1) + d && At(r, p2) == At(b, p2) - d;
      AbsShift(At(b, p1), d);
      AbsShift(At(b, p2), -d);
    }
  }

  /** Moving a number by d moves its magnitude by at most |d|. */
  lemma AbsShift(x: real, d: real)
    ensures Abs(Abs(x + d) - Abs(x)) <= Abs(d)
  {
  }

  /** So a 0 cannot be written into a block whose margin is at or below
      M0 - 2 * alpha. */
  lemma ZeroNeedsMargin(b: Block, k: nat, alpha: real, m0: real)
    requires alpha >= 0.0
    requires Margin(b, k) <= m0 - 2.0 * alpha
    ensures !Carries(b, 0, k, alpha, m0)
  {
    MarginStep(b, 0, k, alpha, m0);
  }

  /** With the program's own parameters (alpha 0.5, M0 5) a flat block, all
      of whose coefficients are 0, cannot carry a 0 for any k. */
  lemma DefaultsLoseZeroOnFlatBlock(k: nat)
    ensures !Carries(seq(64, _ => 0.0), 0, k, 0.5, 5.0)
  {
    ZeroNeedsMargin(seq(64, _ => 0.0), k, 0.5, 5.0);
  }

  /** Rows and columns of the block at corner o: 8, or fewer at the edge. */
  function Extent(h: nat, w: nat, o: Origin): (int, int) {
    (Min(8, h - o.row), Min(8, w - o.col))
  }

  /** Bit k's two coefficients exist in a transform of this extent. */
  predicate PairFits(k: nat, extent: (int, int)) {
    var (p1, p2) := PairFor(k);
    p1.row < extent.0 && p1.col < extent.1 && p2.row < extent.0 && p2.col < extent.1
  }

  /** None of the first `count` visited blocks raises an IndexError. */
  predicate AllFit(h: nat, w: nat, order: seq<Origin>, count: nat)
    requires count <= |order|
  {
    forall k :: 0 <= k < count ==> PairFits(k, Extent(h, w, order[k]))
  }

  /** A block cut to three rows or columns or fewer has no usable pair. */
  lemma ThinBlockNeverFits(k: nat, extent: (int, int))
    requires extent.0 <= 3 || extent.1 <= 3
    ensures !PairFits(k, extent)
  {
  }

  /** No block raises when each side of the image is a multiple of 8 or
      leaves an edge strip of at least 6. */
  lemma WideEdgesFit(h: nat, w: nat, order: seq<Origin>, count: nat)
    requires h % 8 == 0 || h % 8 >= 6
    requires w % 8 == 0 || w % 8 >= 6
    requires IsShuffleOf(order, AlignedOrigins(h, w))
    requires count <= |order|
    ensures AllFit(h, w, order, count)
  {
    AlignedOriginsSpec(h, w);
    forall k | 0 <= k < count ensures PairFits(k, Extent(h, w, order[k])) {
      var o := order[k];
      assert o in multiset(AlignedOrigins(h, w));
      EdgeStrip(h, o.row);
      EdgeStrip(w, o.col);
    }
  }

  /** An aligned coordinate below n leaves at least 8 or exactly n mod 8
      samples to the edge. */
  lemma EdgeStrip(n: nat, i: nat)
    requires i % 8 == 0 && i < n
    ensures n - i >= 8 || n - i == n % 8
  {
    var q := i / 8;
    assert i == 8 * q;
    if q < n / 8 {
      MulMonotone(q + 1, n / 8, 8);
    }
  }

  /** `random.shuffle(all_indexes)`: the visit order is a rearrangement of
      the corner list. */
  predicate IsShuffleOf(order: seq<Origin>, origins: seq<Origin>) {
    multiset(order) == multiset(origins)
  }

  /** The transform-domain view holds every block of the image. */
  predicate CoversOrigins(view: map<Origin, Block>, h: nat, w: nat) {
    forall o :: o in AlignedOrigins(h, w) ==> o in view
  }

  /** A rearrangement of a list without repeats has no repeats. */
  lemma ShuffleDistinct<T>(a: seq<T>, b: seq<T>)
    requires multiset(a) == multiset(b)
    requires Distinct(b)
    ensures Distinct(a)
  {
    forall i, j | 0 <= i < j < |a| ensures a[i] != a[j] {
      if a[i] == a[j] {
        RepeatCount(a, i, j);
        DistinctCount(b, a[i]);
      }
    }
  }

  lemma RepeatCount<T>(s: seq<T>, i: nat, j: nat)
    requires i < j < |s| && s[i] == s[j]
    ensures multiset(s)[s[i]] >= 2
  {
    assert s == s[..j] + s[j..];
    assert s[..j][i] == s[i];
    assert s[j..][0] == s[j];
    assert multiset(s) == multiset(s[..j]) + multiset(s[j..]);
  }

  lemma {:induction false} DistinctCount<T>(s: seq<T>, x: T)
    requires Distinct(s)
    ensures multiset(s)[x] <= 1
    decreases |s|
  {
    if |s| > 0 {
      var t := s[1..];
      assert s == [s[0]] + t;
      assert Distinct(t) by {
        forall n, m | 0 <= n < m < |t| ensures t[n] != t[m] {
          assert t[n] == s[n + 1] && t[m] == s[m + 1];
        }
      }
      DistinctCount(t, x);
      if s[0] == x {
        assert x !in t by {
          forall n | 0 <= n < |t| ensures t[n] != x {
            assert t[n] == s[n + 1];
          }
        }
      }
    }
  }

  /** The visit order names each corner of the image once, and every block
      it names is in the view. */
  lemma OrderFacts(h: nat, w: nat, view: map<Origin, Block>, order: seq<Origin>)
    requires IsShuffleOf(order, AlignedOrigins(h, w))
    requires CoversOrigins(view, h, w)
    ensures Distinct(order)
    ensures forall k :: 0 <= k < |order| ==> order[k] in view
  {
    GridDistinct((h + 7) / 8, (w + 7) / 8);
    ShuffleDistinct(order, AlignedOrigins(h, w));
    forall k | 0 <= k < |order| ensures order[k] in view {
      assert order[k] in multiset(AlignedOrigins(h, w));
    }
  }

  function Rule(alpha: real, m0: real): (Block, Bit, nat) -> Block {
    (b, bit, k) => EmbedBit(b, bit, k, alpha, m0)
  }

  function ReadRule(m0: real): (Block, nat) -> Bit {
    (b, k) => DecodeBit(b, k, m0)
  }

  /** The embedder's output: the rewritten blocks and `bits_count`. */
  datatype Stego = Stego(view: map<Origin, Block>, bitsCount: nat)

  /** The embedding loop over the first `|sent|` blocks of the order. */
  function WriteBlocks(view: map<Origin, Block>, order: seq<Origin>, sent: seq<Bit>,
                       alpha: real, m0: real): (r: map<Origin, Block>)
    requires |sent| <= |order|
    requires forall k :: 0 <= k < |order| ==> order[k] in view
    requires Distinct(order)
    ensures r.Keys == view.Keys
    ensures forall k :: 0 <= k < |sent| ==> r[order[k]] == EmbedBit(view[order[k]], sent[k], k, alpha, m0)
    ensures forall o :: o in view && o !in order[..|sent|] ==> r[o] == view[o]
  {
    WriteAll(view, order, sent, Rule(alpha, m0));
    WriteInOrder(view, order, sent, Rule(alpha, m0), 0)
  }

  /** `embed_message`, without the colour conversion, the transform, the
      write-back to 8-bit samples and the file I/O. The loop stops after
      the last bit or the last block, whichever comes first, and returns
      the full bit count either way; it fails if a visited edge block lacks
      a coefficient. */
  function EmbedMessage(h: nat, w: nat, view: map<Origin, Block>, order: seq<Origin>, message: string,
                        alpha: real, m0: real): (r: Result<Stego>)
    requires IsShuffleOf(order, AlignedOrigins(h, w))
    requires CoversOrigins(view, h, w)
    ensures r.Err? <==> !AllFit(h, w, order, Min(|TextToBits(message)|, |order|))
    ensures r.Err? ==> r.error == IndexOutOfRange
    ensures r.Ok? ==> r.value.bitsCount == |TextToBits(message)|
    ensures r.Ok? ==> r.value.view.Keys == view.Keys
    ensures r.Ok? ==> forall k :: 0 <= k < |order| ==> order[k] in view
    ensures r.Ok? ==> forall k :: 0 <= k < Min(|TextToBits(message)|, |order|) ==>
              r.value.view[order[k]] == EmbedBit(view[order[k]], TextToBits(message)[k], k, alpha, m0)
    ensures r.Ok? ==> forall o :: o in view && o !in order[..Min(|TextToBits(message)|, |order|)] ==>
              r.value.view[o] == view[o]
  {
    var bits := TextToBits(message);
    var count := Min(|bits|, |order|);
    OrderFacts(h, w, view, order);
    if !AllFit(h, w, order, count) then Err(IndexOutOfRange)
    else
      var sent := bits[..count];
      assert forall k :: 0 <= k < count ==> sent[k] == bits[k];
      Ok(Stego(WriteBlocks(view, order, sent, alpha, m0), |bits|))
  }

  /** `extract_message`: reads `min(bits_count, blocks)` bits in the same
      order and decodes them, a trailing partial group included. */
  function ExtractMessage(h: nat, w: nat, view: map<Origin, Block>, order: seq<Origin>, bitsCount: nat,
                          m0: real): (r: Result<string>)
    requires IsShuffleOf(order, AlignedOrigins(h, w))
    requires CoversOrigins(view, h, w)
    ensures r.Err? <==> !AllFit(h, w, order, Min(bitsCount, |order|))
    ensures r.Err? ==> r.error == IndexOutOfRange
    ensures r.Ok? ==> |r.value| == (Min(bitsCount, |order|) + 7) / 8
    ensures r.Ok? ==> ByteCoded(r.value)
  {
    var count := Min(bitsCount, |order|);
    OrderFacts(h, w, view, order);
    if !AllFit(h, w, order, count) then Err(IndexOutOfRange)
    else Ok(BitsToText(ReadInOrder(view, order, count, ReadRule(m0))))
  }

  /** Every visited block carries its bit. */
  predicate AllCarry(view: map<Origin, Block>, order: seq<Origin>, bits: seq<Bit>, alpha: real, m0: real) {
    forall k :: 0 <= k < |bits| && k < |order| && order[k] in view ==>
      Carries(view[order[k]], bits[k], k, alpha, m0)
  }

  /** Extracting with the returned bit count from the embedder's output
      gives back the message, when there are enough blocks and each visited
      block carries its bit (see `CarriesExactly`; the scheme gives no
      guarantee beyond that). */
  lemma RoundTrip(h: nat, w: nat, view: map<Origin, Block>, order: seq<Origin>, message: string,
                  alpha: real, m0: real)
    requires IsShuffleOf(order, AlignedOrigins(h, w))
    requires CoversOrigins(view, h, w)
    requires ByteCoded(message)
    requires |TextToBits(message)| <= |order|
    requires AllCarry(view, order, TextToBits(message), alpha, m0)
    requires EmbedMessage(h, w, view, order, message, alpha, m0).Ok?
    ensures var out := EmbedMessage(h, w, view, order, message, alpha, m0).value;
            ExtractMessage(h, w, out.view, order, out.bitsCount, m0) == Ok(message)
  {
    var bits := TextToBits(message);
    ReadBack(h, w, view, order, message, alpha, m0);
    TextRoundTrip(message);
  }

  /** With enough blocks, an accepted message is written by the embedding
      loop over the first `|bits|` blocks of the order. */
  lemma EmbedWrites(h: nat, w: nat, view: map<Origin, Block>, order: seq<Origin>, message: string,
                    alpha: real, m0: real)
    requires IsShuffleOf(order, AlignedOrigins(h, w))
    requires CoversOrigins(view, h, w)
    requires |TextToBits(message)| <= |order|
    requires EmbedMessage(h, w, view, order, message, alpha, m0).Ok?
    ensures forall k :: 0 <= k < |order| ==> order[k] in view
    ensures Distinct(order)
    ensures AllFit(h, w, order, |TextToBits(message)|)
    ensures EmbedMessage(h, w, view, order, message, alpha, m0).value
              == Stego(WriteInOrder(view, order, TextToBits(message), Rule(alpha, m0), 0), |TextToBits(message)|)
  {
    var bits := TextToBits(message);
    OrderFacts(h, w, view, order);
    assert bits[..|bits|] == bits;
  }

  /** Each visited block that carries its bit reads back as it. */
  lemma CarriedReadBack(view: map<Origin, Block>, order: seq<Origin>, bits: seq<Bit>, alpha: real, m0: real)
    requires |bits| <= |order|
    requires forall k :: 0 <= k < |order| ==> order[k] in view
    requires AllCarry(view, order, bits, alpha, m0)
    ensures forall k :: 0 <= k < |bits| ==>
              ReadRule(m0)(Rule(alpha, m0)(view[order[k]], bits[k], k), k) == bits[k]
  {
  }

  lemma ReadBack(h: nat, w: nat, view: map<Origin, Block>, order: seq<Origin>, message: string,
                 alpha: real, m0: real)
    requires IsShuffleOf(order, AlignedOrigins(h, w))
    requires CoversOrigins(view, h, w)
    requires |TextToBits(message)| <= |order|
    requires AllCarry(view, order, TextToBits(message), alpha, m0)
    requires EmbedMessage(h, w, view, order, message, alpha, m0).Ok?
    ensures var out := EmbedMessage(h, w, view, order, message, alpha, m0).value;
            && out.view.Keys == view.Keys
            && out.bitsCount == |TextToBits(message)|
            && (forall k :: 0 <= k < |order| ==> order[k] in out.view)
            && AllFit(h, w, order, out.bitsCount)
            && ReadInOrder(out.view, order, out.bitsCount, ReadRule(m0)) == TextToBits(message)
  {
    var bits := TextToBits(message);
    EmbedWrites(h, w, view, order, message, alpha, m0);
    CarriedReadBack(view, order, bits, alpha, m0);
    ReadAfterWrite(view, order, bits, Rule(alpha, m0), ReadRule(m0));
  }
}

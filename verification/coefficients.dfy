/** The transform-domain side of the block schemes.

    A block's coefficients are 64 exact reals, row-major; the orthonormal
    transform that produces them from pixels is not part of this model.
    The schemes visit blocks in some order, change block k according to
    bit k, and later read bit k back from block k. Because the blocks never
    overlap, each block's coefficients can be kept under its own key and
    changed without touching any other block. A block cut short by the
    plane's edge (second scheme only) has fewer real coefficients; the
    schemes check, before reading any, that the two they use exist. */
module Coefficients {
  import opened Bits
  import opened BlockGrid

  type Block = s: seq<real> | |s| == 64 witness seq(64, _ => 0.0)

  /** A position (row, col) inside an 8x8 coefficient block. */
  datatype Coord = Coord(row: nat, col: nat) {
    predicate InBlock() {
      row < 8 && col < 8
    }

    function Offset(): nat
      requires InBlock()
    {
      row * 8 + col
    }
  }

  function At(b: Block, c: Coord): real
    requires c.InBlock()
  {
    b[c.Offset()]
  }

  function Put(b: Block, c: Coord, v: real): (r: Block)
    requires c.InBlock()
    ensures At(r, c) == v
    ensures forall d: Coord :: d.InBlock() && d != c ==> At(r, d) == At(b, d)
  {
    b[c.Offset() := v]
  }

  function Abs(x: real): real {
    if x < 0.0 then -x else x
  }

  /** The embedding loop from bit `k` on: block `order[i]` is replaced by
      `rule(block, bits[i], i)`. */
  function WriteInOrder<K(==)>(view: map<K, Block>, order: seq<K>, bits: seq<Bit>,
                               rule: (Block, Bit, nat) -> Block, k: nat): (r: map<K, Block>)
    requires k <= |bits| <= |order|
    requires forall i :: k <= i < |bits| ==> order[i] in view
    requires forall i, j :: k <= i < j < |bits| ==> order[i] != order[j]
    ensures r.Keys == view.Keys
    ensures forall i :: k <= i < |bits| ==> r[order[i]] == rule(view[order[i]], bits[i], i)
    ensures forall key :: key in view && (forall i :: k <= i < |bits| ==> order[i] != key) ==> r[key] == view[key]
    decreases |bits| - k
  {
    if k == |bits| then view
    else
      var key := order[k];
      WriteInOrder(view[key := rule(view[key], bits[k], k)], order, bits, rule, k + 1)
  }

  /** A key outside the first n entries of the order differs from each of
      them. */
  lemma NotInPrefix<K>(order: seq<K>, n: nat, key: K)
    requires n <= |order|
    requires key !in order[..n]
    ensures forall i :: 0 <= i < n ==> order[i] != key
  {
    forall i | 0 <= i < n ensures order[i] != key {
      assert order[i] == order[..n][i];
    }
  }

  /** The whole embedding loop: block `order[i]` receives bit i, and a
      block outside the first `|bits|` entries of the order keeps its
      coefficients. */
  lemma WriteAll<K>(view: map<K, Block>, order: seq<K>, bits: seq<Bit>, rule: (Block, Bit, nat) -> Block)
    requires |bits| <= |order|
    requires forall i :: 0 <= i < |bits| ==> order[i] in view
    requires Distinct(order)
    ensures WriteInOrder(view, order, bits, rule, 0).Keys == view.Keys
    ensures forall i :: 0 <= i < |bits| ==>
              WriteInOrder(view, order, bits, rule, 0)[order[i]] == rule(view[order[i]], bits[i], i)
    ensures forall key :: key in view && key !in order[..|bits|] ==>
              WriteInOrder(view, order, bits, rule, 0)[key] == view[key]
  {
    forall key | key in view && key !in order[..|bits|] {
      NotInPrefix(order, |bits|, key);
    }
  }

  /** The extraction loop: bit i is read from block `order[i]`. */
  function ReadInOrder<K>(view: map<K, Block>, order: seq<K>, count: nat,
                          decode: (Block, nat) -> Bit): (bits: seq<Bit>)
    requires count <= |order|
    requires forall i :: 0 <= i < count ==> order[i] in view
    ensures |bits| == count
  {
    seq(count, i requires 0 <= i < count => decode(view[order[i]], i))
  }

  /** Reading back in the order of writing returns the written bits when
      each rewritten block decodes to its own bit. */
  lemma ReadAfterWrite<K>(view: map<K, Block>, order: seq<K>, bits: seq<Bit>,
                          rule: (Block, Bit, nat) -> Block, decode: (Block, nat) -> Bit)
    requires |bits| <= |order|
    requires forall i :: 0 <= i < |bits| ==> order[i] in view
    requires Distinct(order)
    requires forall i :: 0 <= i < |bits| ==> decode(rule(view[order[i]], bits[i], i), i) == bits[i]
    ensures ReadInOrder(WriteInOrder(view, order, bits, rule, 0), order, |bits|, decode) == bits
  {
  }
}

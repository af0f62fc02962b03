/** lab02/lab02.py: least-significant-bit embedding in a raster image.

    The image is an array of 8-bit samples of shape height x width x
    channels. The model keeps it as one flat row-major sequence: sample
    (i, j, k) sits at index (i * width + j) * channels + k. Both embedder
    and extractor walk the pixels row by row and, inside a pixel, channels
    0, 1 and 2 only (a fourth, alpha, channel is never visited). The p-th
    visited sample is pixel p / 3, channel p % 3.

    The payload is the 8-bit codes of the text followed by eight 0 bits, a
    terminator. The extractor reads the low bit of every visited sample and
    decodes groups of eight until the first all-zero group. */
module LsbCarrier {
  import opened Outcome
  import opened Bits
  import opened Arith

  datatype Image = Image(height: nat, width: nat, channels: nat, samples: seq<bv8>) {
    /** The array really has this shape, and it has the three channels the
        traversal visits (the source's indexing fails on fewer). */
    predicate Valid() {
      channels >= 3 && |samples| == height * width * channels
    }

    /** `height * width * 3`: one bit per visited sample. */
    function Capacity(): nat {
      height * width * 3
    }
  }

  /** `(v & 0xFE) | bit`. */
  function SetLsb(v: bv8, bit: Bit): (r: bv8)
    ensures r & 0xFE == v & 0xFE
    ensures Lsb(r) == bit
    ensures -1 <= r as int - v as int <= 1
  {
    (v & 0xFE) | (bit as bv8)
  }

  /** `v & 1`. */
  function Lsb(v: bv8): Bit {
    if v & 1 == 0 then 0 else 1
  }

  /** Flat index of the p-th visited sample. */
  function SampleIndex(p: nat, channels: nat): nat
    requires channels >= 3
  {
    (p / 3) * channels + p % 3
  }

  /** Visit position of the sample at flat index n, when its channel is one
      of 0, 1, 2. */
  function VisitPosition(n: nat, channels: nat): nat
    requires channels >= 3
  {
    (n / channels) * 3 + n % channels
  }

  /** The visit order is one-to-one and stays inside the array. */
  lemma SampleIndexFacts(p: nat, img: Image)
    requires img.Valid()
    requires p < img.Capacity()
    ensures SampleIndex(p, img.channels) < |img.samples|
    ensures SampleIndex(p, img.channels) % img.channels == p % 3
    ensures VisitPosition(SampleIndex(p, img.channels), img.channels) == p
  {
    var c := img.channels;
    var pixel := p / 3;
    DivModOfSum(pixel, c, p % 3);
    QuotientBound(p, 3, img.height * img.width);
    MulMonotone(pixel + 1, img.height * img.width, c);
    assert (img.height * img.width) * c == img.height * img.width * c;
  }

  /** Whether the sample at flat index n is among the first `count`
      visited ones. */
  predicate Visited(n: nat, channels: nat, count: nat)
    requires channels >= 3
  {
    n % channels < 3 && VisitPosition(n, channels) < count
  }

  /** The first `count` visit positions name distinct samples inside the
      array, and they are exactly the samples `Visited` picks out. */
  lemma VisitOrderFacts(img: Image, count: nat)
    requires img.Valid()
    requires count <= img.Capacity()
    ensures forall q :: 0 <= q < count ==> SampleIndex(q, img.channels) < |img.samples|
    ensures forall q, q' :: 0 <= q < q' < count ==> SampleIndex(q, img.channels) != SampleIndex(q', img.channels)
    ensures forall n :: 0 <= n < |img.samples| && !Visited(n, img.channels, count) ==>
              (forall q :: 0 <= q < count ==> SampleIndex(q, img.channels) != n)
  {
    var c := img.channels;
    forall q | 0 <= q < count ensures SampleIndex(q, c) < |img.samples| {
      SampleIndexFacts(q, img);
    }
    forall q, q' | 0 <= q < q' < count ensures SampleIndex(q, c) != SampleIndex(q', c) {
      SampleIndexFacts(q, img);
      SampleIndexFacts(q', img);
    }
    forall n, q | 0 <= n < |img.samples| && !Visited(n, c, count) && 0 <= q < count
      ensures SampleIndex(q, c) != n {
      SampleIndexFacts(q, img);
    }
  }

  /** The payload: the text's codes and a zero byte. */
  function Payload(text: string): (bits: seq<Bit>)
    ensures |bits| == |TextToBits(text)| + 8
  {
    TextToBits(text) + Zeros(8)
  }

  /** The embedding loop from visit position `p` on: the p-th visited
      sample gets payload bit p in its low bit. */
  function WriteFrom(samples: seq<bv8>, channels: nat, payload: seq<Bit>, p: nat): (r: seq<bv8>)
    requires channels >= 3
    requires p <= |payload|
    requires forall q :: p <= q < |payload| ==> SampleIndex(q, channels) < |samples|
    requires forall q, q' :: p <= q < q' < |payload| ==> SampleIndex(q, channels) != SampleIndex(q', channels)
    ensures |r| == |samples|
    ensures forall q :: p <= q < |payload| ==>
              r[SampleIndex(q, channels)] == SetLsb(samples[SampleIndex(q, channels)], payload[q])
    ensures forall n :: 0 <= n < |samples| && (forall q :: p <= q < |payload| ==> SampleIndex(q, channels) != n) ==>
              r[n] == samples[n]
    decreases |payload| - p
  {
    if p == |payload| then samples
    else
      var n := SampleIndex(p, channels);
      WriteFrom(samples[n := SetLsb(samples[n], payload[p])], channels, payload, p + 1)
  }

  /** `embed_text_lsb`, without the file I/O. */
  function EmbedTextLsb(img: Image, text: string): (r: Result<Image>)
    requires img.Valid()
    ensures r.Err? <==> |Payload(text)| > img.Capacity()
    ensures ByteCoded(text) ==> (r.Err? <==> 8 * |text| + 8 > img.Capacity())
    ensures r.Ok? ==> r.value.Valid()
    ensures r.Ok? ==> (r.value.height, r.value.width, r.value.channels) == (img.height, img.width, img.channels)
    ensures r.Ok? ==> forall p :: 0 <= p < |Payload(text)| ==>
              && SampleIndex(p, img.channels) < |img.samples|
              && Lsb(r.value.samples[SampleIndex(p, img.channels)]) == Payload(text)[p]
              && r.value.samples[SampleIndex(p, img.channels)] & 0xFE
                   == img.samples[SampleIndex(p, img.channels)] & 0xFE
    ensures r.Ok? ==> forall n :: 0 <= n < |img.samples| && !Visited(n, img.channels, |Payload(text)|) ==>
              r.value.samples[n] == img.samples[n]
  {
    var payload := Payload(text);
    if |payload| > img.Capacity() then Err(CapacityExceeded)
    else
      VisitOrderFacts(img, |payload|);
      var out := WriteFrom(img.samples, img.channels, payload, 0);
      Ok(Image(img.height, img.width, img.channels, out))
  }

  /** The low bits of all visited samples, in visit order. */
  function VisitedBits(img: Image): (bits: seq<Bit>)
    requires img.Valid()
    ensures |bits| == img.Capacity()
  {
    seq(img.Capacity(), p requires 0 <= p < img.Capacity() =>
      SampleIndexFacts(p, img);
      Lsb(img.samples[SampleIndex(p, img.channels)]))
  }

  /** The decoding loop of `extract_text_lsb`: groups of eight (the last
      one possibly shorter) until the first group equal to eight zeros. */
  function DecodeUntilZeroByte(bits: seq<Bit>): (t: string)
    ensures |t| <= (|bits| + 7) / 8
    ensures ByteCoded(t)
    decreases |bits|
  {
    if |bits| == 0 then ""
    else
      var k := if |bits| < 8 then |bits| else 8;
      if bits[..k] == Zeros(8) then ""
      else
        assert Pow2(k) <= 256 by { Pow2Eight(); Pow2Monotone(k, 8); }
        var rest := DecodeUntilZeroByte(bits[k..]);
        var t := [ByteChar(Value(bits[..k]))] + rest;
        assert forall i :: 1 <= i < |t| ==> t[i] == rest[i - 1];
        t
  }

  /** `extract_text_lsb`, without the file I/O. */
  function ExtractTextLsb(img: Image): (t: string)
    requires img.Valid()
    ensures ByteCoded(t)
  {
    DecodeUntilZeroByte(VisitedBits(img))
  }

  predicate NoNul(text: string) {
    forall i :: 0 <= i < |text| ==> text[i] != '\0'
  }

  /** A leading group of eight bits that is not the terminator decodes to
      one character ahead of the rest. */
  lemma DecodeUntilZeroByteCons(head: seq<Bit>, rest: seq<Bit>)
    requires |head| == 8 && head != Zeros(8)
    ensures Value(head) < 256
    ensures DecodeUntilZeroByte(head + rest) == [ByteChar(Value(head))] + DecodeUntilZeroByte(rest)
  {
    Pow2Eight();
    var bits := head + rest;
    assert bits[..8] == head;
    assert bits[8..] == rest;
  }

  /** The tail of a byte-coded text without NUL has neither property
      broken. */
  lemma TailFacts(text: string)
    requires |text| > 0 && ByteCoded(text) && NoNul(text)
    ensures ByteCoded(text[1..]) && NoNul(text[1..])
  {
    forall i | 0 <= i < |text| - 1 ensures text[1..][i] as int < 256 && text[1..][i] != '\0' {
      assert text[1..][i] == text[i + 1];
    }
  }

  /** The code of a character other than NUL is not the terminator. */
  lemma CodeNotTerminator(c: char)
    requires c as int < 256 && c != '\0'
    ensures CodeBits(c as int) != Zeros(8)
  {
    if CodeBits(c as int) == Zeros(8) {
      ValueOfZeros(8);
    }
  }

  /** The decoder stops exactly at the terminator the embedder appends, so
      whatever follows it is ignored. */
  lemma {:induction false} DecodeStopsAtTerminator(text: string, rest: seq<Bit>)
    requires ByteCoded(text) && NoNul(text)
    ensures DecodeUntilZeroByte(TextToBits(text) + Zeros(8) + rest) == text
    decreases |text|
  {
    if |text| == 0 {
      var bits := TextToBits(text) + Zeros(8) + rest;
      assert bits[..8] == Zeros(8);
    } else {
      var head := CodeBits(text[0] as int);
      var tail := TextToBits(text[1..]) + Zeros(8) + rest;
      assert TextToBits(text) + Zeros(8) + rest == head + tail;
      CodeNotTerminator(text[0]);
      DecodeUntilZeroByteCons(head, tail);
      TailFacts(text);
      DecodeStopsAtTerminator(text[1..], rest);
      assert text == [text[0]] + text[1..];
    }
  }

  /** The first visited samples of the embedder's output carry the
      payload in their low bits. */
  lemma PayloadReadBack(img: Image, text: string)
    requires img.Valid()
    requires EmbedTextLsb(img, text).Ok?
    ensures |Payload(text)| <= |VisitedBits(EmbedTextLsb(img, text).value)|
    ensures VisitedBits(EmbedTextLsb(img, text).value)[..|Payload(text)|] == Payload(text)
  {
    var out := EmbedTextLsb(img, text).value;
    var payload := Payload(text);
    var bits := VisitedBits(out);
    forall p | 0 <= p < |payload| ensures bits[p] == payload[p] {
      SampleIndexFacts(p, out);
    }
  }

  /** Extracting from the embedder's output gives back the text, for every
      text without NUL characters whose codes fit in a byte. */
  lemma RoundTrip(img: Image, text: string)
    requires img.Valid()
    requires ByteCoded(text) && NoNul(text)
    requires EmbedTextLsb(img, text).Ok?
    ensures ExtractTextLsb(EmbedTextLsb(img, text).value) == text
  {
    var bits := VisitedBits(EmbedTextLsb(img, text).value);
    var n := |Payload(text)|;
    PayloadReadBack(img, text);
    assert bits == TextToBits(text) + Zeros(8) + bits[n..] by {
      assert bits == bits[..n] + bits[n..];
    }
    DecodeStopsAtTerminator(text, bits[n..]);
  }
}

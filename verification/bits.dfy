/** The text <-> bit-string codec copied into every script of the repository.

    `text_to_bits` writes each character's code point with Python's
    `format(code, '08b')`: eight binary digits, most significant first, and
    MORE than eight digits when the code is 256 or above (the format only
    pads, it never truncates). `bits_to_text` cuts the bit string into
    chunks of eight, the last one possibly shorter, and turns each chunk
    into the character whose code is its binary value. */
module Bits {
  import opened Arith


  /** One message bit ('0' or '1' in the source). */
  type Bit = b: nat | b < 2

  /** One byte of a binary-mode line (lab01) or one 8-bit sample value. */
  type Byte = b: int | 0 <= b < 256

  function Pow2(n: nat): (r: nat)
    ensures r >= 1
  {
    if n == 0 then 1 else 2 * Pow2(n - 1)
  }

  lemma Pow2Eight()
    ensures Pow2(8) == 256
  {
    assert Pow2(4) == 16;
  }

  /** Every code of `t` fits in one byte, so each character takes exactly
      eight bits. */
  predicate ByteCoded(t: string) {
    forall i :: 0 <= i < |t| ==> t[i] as int < 256
  }

  function Zeros(n: nat): (r: seq<Bit>)
    ensures |r| == n
    ensures forall i :: 0 <= i < n ==> r[i] == 0
  {
    if n == 0 then [] else Zeros(n - 1) + [0]
  }

  /** The low `width` binary digits of `n`, most significant first. */
  function Binary(n: nat, width: nat): (r: seq<Bit>)
    ensures |r| == width
  {
    if width == 0 then [] else Binary(n / 2, width - 1) + [n % 2]
  }

  /** The number a string of binary digits denotes (Python `int(s, 2)`). */
  function Value(bits: seq<Bit>): (v: nat)
    ensures v < Pow2(|bits|)
  {
    if |bits| == 0 then 0
    else 2 * Value(bits[..|bits| - 1]) + bits[|bits| - 1]
  }

  lemma {:induction false} ValueOfBinary(n: nat, width: nat)
    requires n < Pow2(width)
    ensures Value(Binary(n, width)) == n
    decreases width
  {
    if width > 0 {
      var b := Binary(n, width);
      assert b[..width - 1] == Binary(n / 2, width - 1);
      ValueOfBinary(n / 2, width - 1);
    }
  }

  lemma {:induction false} BinaryOfValue(bits: seq<Bit>)
    ensures Binary(Value(bits), |bits|) == bits
    decreases |bits|
  {
    if |bits| > 0 {
      var front := bits[..|bits| - 1];
      BinaryOfValue(front);
      assert bits == front + [bits[|bits| - 1]];
    }
  }

  /** A run of zeros is the binary form of 0. */
  lemma {:induction false} ZerosBinary(n: nat)
    ensures Zeros(n) == Binary(0, n)
    decreases n
  {
    if n > 0 {
      ZerosBinary(n - 1);
    }
  }

  lemma ValueOfZeros(n: nat)
    ensures Value(Zeros(n)) == 0
  {
    ZerosBinary(n);
    ValueOfBinary(0, n);
  }

  /** The number of binary digits Python prints for `n` (at least one). */
  function BitLength(n: nat): (k: nat)
    ensures k >= 1
  {
    if n < 2 then 1 else 1 + BitLength(n / 2)
  }

  lemma {:induction false} BitLengthBounds(n: nat)
    ensures n < Pow2(BitLength(n))
    ensures n >= 256 ==> BitLength(n) >= 9
    decreases n
  {
    if n >= 2 {
      BitLengthBounds(n / 2);
      if n >= 256 {
        assert n / 2 >= 128;
        BitLengthAtLeast(n / 2, 128, 7);
      }
    }
  }

  lemma {:induction false} BitLengthAtLeast(n: nat, lo: nat, k: nat)
    requires lo == Pow2(k)
    requires n >= lo
    ensures BitLength(n) >= k + 1
    decreases k
  {
    if k > 0 {
      assert n >= 2;
      BitLengthAtLeast(n / 2, Pow2(k - 1), k - 1);
    }
  }

  /** `format(code, '08b')`: eight digits below 256, every digit above. */
  function CodeBits(code: nat): (r: seq<Bit>)
    ensures |r| >= 8
    ensures |r| == 8 <==> code < 256
    ensures code >= 256 ==> |r| == BitLength(code)
    ensures Value(r) == code
  {
    if code < 256 then
      Pow2Eight();
      ValueOfBinary(code, 8);
      Binary(code, 8)
    else
      BitLengthBounds(code);
      ValueOfBinary(code, BitLength(code));
      Binary(code, BitLength(code))
  }

  /** `text_to_bits`: the concatenated codes of the characters of `t`. */
  function TextToBits(t: string): (r: seq<Bit>)
    ensures |r| >= 8 * |t|
    ensures |r| == 8 * |t| <==> ByteCoded(t)
  {
    if |t| == 0 then []
    else
      var rest := TextToBits(t[1..]);
      assert ByteCoded(t) <==> t[0] as int < 256 && ByteCoded(t[1..]) by {
        if t[0] as int < 256 && ByteCoded(t[1..]) {
          forall i | 0 <= i < |t| ensures t[i] as int < 256 {
            if i > 0 { assert t[i] == t[1..][i - 1]; }
          }
        }
        if ByteCoded(t) {
          forall i | 0 <= i < |t| - 1 ensures t[1..][i] as int < 256 {
            assert t[1..][i] == t[i + 1];
          }
        }
      }
      CodeBits(t[0] as int) + rest
  }

  /** The character a code below 256 stands for (Python `chr`). */
  function ByteChar(v: nat): (c: char)
    requires v < 256
    ensures c as int == v
  {
    v as char
  }

  /** `bits_to_text`: chunks of eight, the last one possibly shorter, each
      read as a binary number and turned into a character. */
  function BitsToText(bits: seq<Bit>): (t: string)
    ensures |t| == (|bits| + 7) / 8
    ensures ByteCoded(t)
  {
    if |bits| == 0 then ""
    else
      var k := if |bits| < 8 then |bits| else 8;
      assert Pow2(k) <= 256 by { Pow2Eight(); Pow2Monotone(k, 8); }
      var rest := BitsToText(bits[k..]);
      var t := [ByteChar(Value(bits[..k]))] + rest;
      assert forall i :: 1 <= i < |t| ==> t[i] == rest[i - 1];
      t
  }

  /** The extractor of the Koch scheme: only complete groups of eight are
      turned into characters, a trailing partial group is dropped. */
  function CompleteGroupsToText(bits: seq<Bit>): (t: string)
    ensures |t| == |bits| / 8
    ensures ByteCoded(t)
  {
    if |bits| < 8 then ""
    else
      Pow2Eight();
      var rest := CompleteGroupsToText(bits[8..]);
      var t := [ByteChar(Value(bits[..8]))] + rest;
      assert forall i :: 1 <= i < |t| ==> t[i] == rest[i - 1];
      t
  }

  lemma {:induction false} Pow2Monotone(a: nat, b: nat)
    requires a <= b
    ensures Pow2(a) <= Pow2(b)
    decreases b
  {
    if a < b {
      Pow2Monotone(a, b - 1);
    }
  }

  lemma {:induction false} TextToBitsAppend(a: string, b: string)
    ensures TextToBits(a + b) == TextToBits(a) + TextToBits(b)
    decreases |a|
  {
    if |a| > 0 {
      assert (a + b)[1..] == a[1..] + b;
      TextToBitsAppend(a[1..], b);
    } else {
      assert a + b == b;
    }
  }

  /** A tail of a byte-coded text is byte-coded. */
  lemma ByteCodedTail(t: string)
    requires |t| > 0 && ByteCoded(t)
    ensures ByteCoded(t[1..])
  {
    forall i | 0 <= i < |t| - 1 ensures t[1..][i] as int < 256 {
      assert t[1..][i] == t[i + 1];
    }
  }

  /** Decoding a leading group of exactly eight bits. */
  lemma BitsToTextCons(head: seq<Bit>, rest: seq<Bit>)
    requires |head| == 8
    ensures Value(head) < 256
    ensures BitsToText(head + rest) == [ByteChar(Value(head))] + BitsToText(rest)
  {
    Pow2Eight();
    var bits := head + rest;
    assert bits[..8] == head;
    assert bits[8..] == rest;
  }

  /** Encoding a leading character. */
  lemma TextToBitsCons(c: char, rest: string)
    ensures TextToBits([c] + rest) == CodeBits(c as int) + TextToBits(rest)
  {
    assert ([c] + rest)[1..] == rest;
  }

  /** Decoding undoes encoding for every text whose codes fit in a byte. */
  lemma {:induction false} TextRoundTrip(t: string)
    requires ByteCoded(t)
    ensures BitsToText(TextToBits(t)) == t
    decreases |t|
  {
    if |t| > 0 {
      var head := CodeBits(t[0] as int);
      assert TextToBits(t) == head + TextToBits(t[1..]);
      ByteCodedTail(t);
      TextRoundTrip(t[1..]);
      BitsToTextCons(head, TextToBits(t[1..]));
      assert t == [t[0]] + t[1..];
    }
  }

  /** Encoding undoes decoding for every bit string cut into whole bytes:
      with the round trip above, the codec is a bijection between byte-coded
      texts and bit strings whose length is a multiple of eight. */
  lemma {:induction false} BitsRoundTrip(bits: seq<Bit>)
    requires |bits| % 8 == 0
    ensures TextToBits(BitsToText(bits)) == bits
    decreases |bits|
  {
    if |bits| > 0 {
      var chunk, rest := bits[..8], bits[8..];
      assert bits == chunk + rest;
      DivModOfSum(|rest| / 8 + 1, 8, |rest| % 8);
      BitsToTextCons(chunk, rest);
      var c := ByteChar(Value(chunk));
      BitsRoundTrip(rest);
      TextToBitsCons(c, BitsToText(rest));
      BinaryOfValue(chunk);
      assert CodeBits(c as int) == chunk;
    }
  }

  /** The Koch extractor ignores a trailing partial group: it reads the
      same as on the bits cut to whole groups. */
  lemma {:induction false} CompleteGroupsIgnorePartial(bits: seq<Bit>)
    ensures CompleteGroupsToText(bits) == CompleteGroupsToText(bits[..|bits| / 8 * 8])
    decreases |bits|
  {
    var b := bits[..|bits| / 8 * 8];
    if |bits| >= 8 {
      var tail := bits[8..];
      DivModOfSum(|tail| / 8 + 1, 8, |tail| % 8);
      assert |bits| / 8 * 8 == |tail| / 8 * 8 + 8;
      assert b[..8] == bits[..8];
      assert b[8..] == tail[..|tail| / 8 * 8];
      CompleteGroupsIgnorePartial(tail);
    } else {
      assert b == [];
    }
  }

  /** So, for every bit string, the Koch extractor is `bits_to_text` on
      the whole groups: a trailing partial group is dropped. */
  lemma CompleteGroupsDropPartial(bits: seq<Bit>)
    ensures CompleteGroupsToText(bits) == BitsToText(bits[..|bits| / 8 * 8])
  {
    CompleteGroupsIgnorePartial(bits);
    DivModOfSum(|bits| / 8, 8, 0);
    CompleteGroupsAgree(bits[..|bits| / 8 * 8]);
  }

  /** Dropping a trailing partial group changes nothing when there is none. */
  lemma {:induction false} CompleteGroupsAgree(bits: seq<Bit>)
    requires |bits| % 8 == 0
    ensures CompleteGroupsToText(bits) == BitsToText(bits)
    decreases |bits|
  {
    if |bits| > 0 {
      CompleteGroupsAgree(bits[8..]);
    }
  }
}

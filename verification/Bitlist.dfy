/** SSZ bitlists (types.go): reading the length and a member's bit out of the
    bytes, against the encoding of "Bitlist[N]" in the SSZ specification. Bits
    of a byte are read by halving, which is what the masks of the code select. */
module Bitlist {
  import opened Bytes

  /** Bit k of a byte, the least significant first: b & (1 << k) != 0. */
  predicate BitSet(b: nat, k: nat) {
    if k == 0 then b % 2 == 1 else BitSet(b / 2, k - 1)
  }

  /** bits.Len8: how many bits it takes to write b. */
  function BitLength(b: nat): (n: nat)
    ensures n == 0 <==> b == 0
  {
    if b == 0 then 0 else 1 + BitLength(b / 2)
  }

  /** Go's `bitlistLen`; the subtraction never underflows. */
  function Length(bitlist: seq<byte>): nat {
    if |bitlist| == 0 || bitlist[|bitlist| - 1] == 0 then 0
    else (|bitlist| - 1) * 8 + BitLength(bitlist[|bitlist| - 1]) - 1
  }

  lemma {:induction false} BitLengthBound(b: nat, k: nat)
    requires b < Pow2(k)
    ensures BitLength(b) <= k
  {
    if b > 0 {
      BitLengthBound(b / 2, k - 1);
    }
  }

  /** Every position below the length lies in a byte of the list, so `Includes`
      never indexes out of range. */
  lemma LengthInBytes(bitlist: seq<byte>)
    ensures Length(bitlist) <= 8 * |bitlist|
    ensures Length(bitlist) > 0 ==> 8 * (|bitlist| - 1) <= Length(bitlist) < 8 * |bitlist|
  {
    if |bitlist| > 0 {
      assert Pow2(8) == 256;
      BitLengthBound(bitlist[|bitlist| - 1], 8);
    }
  }

  /** `Attestation.Includes` */
  predicate Includes(bitlist: seq<byte>, position: nat) {
    LengthInBytes(bitlist);
    position < Length(bitlist) && BitSet(bitlist[position / 8], position % 8)
  }

  // ---- The specification's encoding ----

  /** A byte, or the start of one, from its bits: bit k counts 2^k. */
  function ByteValue(bits: seq<bool>): (b: nat)
    ensures b < Pow2(|bits|)
  {
    if |bits| == 0 then 0 else (if bits[0] then 1 else 0) + 2 * ByteValue(bits[1..])
  }

  /** Eight bits to a byte, the last byte zero-filled. */
  function Pack(bits: seq<bool>): (bytes: seq<byte>)
    ensures |bytes| == (|bits| + 7) / 8
  {
    assert Pow2(8) == 256;
    if |bits| == 0 then []
    else if |bits| <= 8 then Pow2Monotone(|bits|, 8); [ByteValue(bits)]
    else [ByteValue(bits[..8])] + Pack(bits[8..])
  }

  /** The members' bits and, to mark the length, one more bit that is set. */
  function Encode(bits: seq<bool>): seq<byte> {
    Pack(bits + [true])
  }

  lemma {:induction false} ZeroHasNoBits(k: nat)
    ensures !BitSet(0, k)
  {
    if k > 0 { ZeroHasNoBits(k - 1); }
  }

  lemma {:induction false} ByteValueBit(bits: seq<bool>, k: nat)
    ensures BitSet(ByteValue(bits), k) <==> k < |bits| && bits[k]
    decreases k
  {
    if |bits| == 0 {
      ZeroHasNoBits(k);
    } else if k > 0 {
      ByteValueBit(bits[1..], k - 1);
      assert ByteValue(bits) / 2 == ByteValue(bits[1..]);
    }
  }

  lemma {:induction false} ByteValueLength(bits: seq<bool>)
    requires |bits| > 0 && bits[|bits| - 1]
    ensures BitLength(ByteValue(bits)) == |bits|
  {
    if |bits| > 1 {
      ByteValueLength(bits[1..]);
      assert ByteValue(bits) / 2 == ByteValue(bits[1..]);
    } else {
      assert ByteValue(bits) == 1 && BitLength(1) == 1 + BitLength(0);
    }
  }

  /** Bit 8 i + k of the packed bits is bit k of byte i. */
  lemma {:induction false} PackBit(bits: seq<bool>, i: nat, k: nat)
    requires k < 8 && 8 * i + k < |bits|
    ensures BitSet(Pack(bits)[i], k) == bits[8 * i + k]
  {
    if |bits| <= 8 {
      ByteValueBit(bits, k);
    } else if i == 0 {
      ByteValueBit(bits[..8], k);
    } else {
      PackBit(bits[8..], i - 1, k);
      assert Pack(bits)[1..] == Pack(bits[8..]);
    }
  }

  lemma {:induction false} PackIsMarked(bits: seq<bool>)
    requires |bits| > 0 && bits[|bits| - 1]
    ensures Pack(bits)[|Pack(bits)| - 1] != 0
  {
    if |bits| <= 8 {
      ByteValueLength(bits);
    } else {
      PackIsMarked(bits[8..]);
    }
  }

  /** The last byte holds the last set bit, so it decides the length. */
  lemma {:induction false} PackLength(bits: seq<bool>)
    requires |bits| > 0 && bits[|bits| - 1]
    ensures Length(Pack(bits)) == |bits| - 1
  {
    if |bits| <= 8 {
      ByteValueLength(bits);
    } else {
      PackLength(bits[8..]);
      var rest := Pack(bits[8..]);
      assert Pack(bits)[|Pack(bits)| - 1] == rest[|rest| - 1];
      PackIsMarked(bits[8..]);
    }
  }

  /** The decoder inverts the encoding: it recovers the length and every bit. */
  lemma DecodesEncoding(bits: seq<bool>)
    ensures Length(Encode(bits)) == |bits|
    ensures forall p: nat :: Includes(Encode(bits), p) <==> p < |bits| && bits[p]
  {
    var marked := bits + [true];
    PackLength(marked);
    forall p: nat
      ensures Includes(Encode(bits), p) <==> p < |bits| && bits[p]
    {
      if p < |bits| {
        PackBit(marked, p / 8, p % 8);
      }
    }
  }

  /** The bits the decoder reads out of arbitrary bytes. */
  function Decode(bitlist: seq<byte>): seq<bool> {
    seq(Length(bitlist), p requires 0 <= p => Includes(bitlist, p))
  }

  // ---- Every marked byte string is an encoding ----

  predicate Marked(bitlist: seq<byte>) {
    |bitlist| > 0 && bitlist[|bitlist| - 1] != 0
  }

  lemma {:induction false} BitsDecide(a: nat, b: nat, n: nat)
    requires a < Pow2(n) && b < Pow2(n)
    requires forall k :: 0 <= k < n ==> BitSet(a, k) == BitSet(b, k)
    ensures a == b
  {
    if n > 0 {
      assert BitSet(a, 0) == BitSet(b, 0);
      forall k | 0 <= k < n - 1
        ensures BitSet(a / 2, k) == BitSet(b / 2, k)
      {
        assert BitSet(a, k + 1) == BitSet(b, k + 1);
      }
      BitsDecide(a / 2, b / 2, n - 1);
    }
  }

  lemma {:induction false} TopBit(b: nat, k: nat)
    requires b > 0 && k + 1 >= BitLength(b)
    ensures BitSet(b, k) <==> k + 1 == BitLength(b)
  {
    if b == 1 {
      assert BitLength(1) == 1 + BitLength(0);
      if k > 0 { ZeroHasNoBits(k - 1); }
    } else {
      TopBit(b / 2, k - 1);
    }
  }

  lemma MarkedSize(bitlist: seq<byte>)
    requires Marked(bitlist)
    ensures |bitlist| == Length(bitlist) / 8 + 1
  {
    LengthInBytes(bitlist);
    assert Pow2(8) == 256;
    BitLengthBound(bitlist[|bitlist| - 1], 8);
  }

  /** A bit of a marked byte string is a member's below the length, the mark at the
      length, and clear past it. */
  lemma BitOfByte(bitlist: seq<byte>, i: nat, k: nat)
    requires Marked(bitlist) && i < |bitlist| && k < 8
    ensures BitSet(bitlist[i], k) <==> Includes(bitlist, 8 * i + k) || 8 * i + k == Length(bitlist)
  {
    var p := 8 * i + k;
    assert p / 8 == i && p % 8 == k;
    MarkedSize(bitlist);
    if p >= Length(bitlist) {
      assert i == |bitlist| - 1;
      TopBit(bitlist[i], k);
    }
  }

  /** Marked byte strings that read the same are the same. */
  lemma ReadingDecides(a: seq<byte>, b: seq<byte>)
    requires Marked(a) && Marked(b)
    requires Length(a) == Length(b)
    requires forall p: nat :: Includes(a, p) <==> Includes(b, p)
    ensures a == b
  {
    MarkedSize(a);
    MarkedSize(b);
    forall i | 0 <= i < |a|
      ensures a[i] == b[i]
    {
      forall k | 0 <= k < 8
        ensures BitSet(a[i], k) == BitSet(b[i], k)
      {
        BitOfByte(a, i, k);
        BitOfByte(b, i, k);
        assert Includes(a, 8 * i + k) <==> Includes(b, 8 * i + k);
      }
      assert Pow2(8) == 256;
      BitsDecide(a[i], b[i], 8);
    }
  }

  /** The encoding inverts the decoder: with DecodesEncoding, a bijection between
      bit sequences and byte strings whose last byte is not zero. */
  lemma EncodesDecoding(bitlist: seq<byte>)
    requires Marked(bitlist)
    ensures Encode(Decode(bitlist)) == bitlist
  {
    var bits := Decode(bitlist);
    DecodesEncoding(bits);
    PackIsMarked(bits + [true]);
    ReadingDecides(Encode(bits), bitlist);
  }
}

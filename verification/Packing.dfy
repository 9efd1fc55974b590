/** Bit sequences in bytes, as the output stream leaves them and the input stream sees them. */
module Packing {
  import opened Sequences
  import opened BitStrings

  // The bytes that hold a bit sequence, the last one filled up with zero bits; at least one byte.
  function Pack(b: Bits): (bytes: seq<Byte>)
    ensures |bytes| > 0
  {
    assert Pow2(8) == 256;
    if |b| <= 8 then [ValueOf(b + Zeros(8 - |b|))] else [ValueOf(b[..8])] + Pack(b[8..])
  }

  lemma {:induction false} PackLength(b: Bits)
    ensures |Pack(b)| == if b == [] then 1 else (|b| + 7) / 8
  {
    if |b| > 8 {
      PackLength(b[8..]);
    }
  }

  function Unpack(bytes: seq<Byte>): (b: Bits)
    ensures |b| == 8 * |bytes|
  {
    if bytes == [] then [] else BitsOf(bytes[0], 8) + Unpack(bytes[1..])
  }

  // How many zero bits fill up the last byte: less than a byte, but all of it when there are no bits.
  function PaddingLength(b: Bits): nat {
    if b == [] then 8 else (8 - |b| % 8) % 8
  }

  lemma PaddingOfRest(b: Bits)
    ensures |b| <= 8 ==> PaddingLength(b) == 8 - |b|
    ensures |b| > 8 ==> PaddingLength(b) == PaddingLength(b[8..])
  {
  }

  lemma UnpackOneByte(b: Bits)
    requires |b| == 8
    ensures ValueOf(b) < 256 && Unpack([ValueOf(b)]) == b
  {
    assert Pow2(8) == 256;
    BitsOfValueOf(b);
    hide BitsOf, ValueOf, Pow2;
    assert [ValueOf(b)][1..] == [];
  }

  // The reader sees the bits written, filled up with zero bits to the end of the last byte.
  lemma {:induction false} UnpackOfPack(b: Bits)
    ensures Unpack(Pack(b)) == b + Zeros(PaddingLength(b))
  {
    hide BitsOf, ValueOf, Pow2, Zeros, PaddingLength;
    PaddingOfRest(b);
    if |b| <= 8 {
      UnpackOneByte(b + Zeros(8 - |b|));
    } else {
      UnpackOfPack(b[8..]);
      UnpackOneByte(b[..8]);
      assert Pack(b)[1..] == Pack(b[8..]) && [ValueOf(b[..8])][1..] == [];
      Regroup(b[..8], b[8..], Zeros(PaddingLength(b)));
      assert b == b[..8] + b[8..];
    }
  }
}

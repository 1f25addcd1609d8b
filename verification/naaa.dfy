/** The two formulations of the price unmasking in `naaa.go`: decode both
    operands big-endian and XOR the words (`Square`), or XOR the bytes and
    decode the result (`Square2`). They always agree, which is what lets the
    encrypting side XOR bytes while the decrypting side XORs `uint64`s. */
module Naaa {
  import opened Bytes

  /** `Square`: big-endian decode of each argument, then word XOR. Only the
      first eight bytes of each argument are read; re-encoding the result
      gives their byte-wise XOR. */
  function Square(pad: seq<byte>, p: seq<byte>): (r: uint64)
    requires |pad| >= 8 && |p| >= 8
    ensures PutUint64(r) == Xor(pad[..8], p[..8])
  {
    BigEndianUint64Xor(pad, p);
    PutUint64OfBigEndian(Xor(pad[..8], p[..8]));
    BigEndianUint64(pad) ^ BigEndianUint64(p)
  }

  /** `Square2`: byte-wise XOR of the first eight bytes into a zeroed
      eight-byte array, then big-endian decode. It computes `Square`. */
  method Square2(pad: seq<byte>, p: seq<byte>) returns (r: uint64)
    requires |pad| >= 8 && |p| >= 8
    ensures r == Square(pad, p)
    ensures PutUint64(r) == Xor(pad[..8], p[..8])
  {
    var priceMicro: seq<byte> := seq(8, _ => 0);
    var i := 0;
    while i < 8
      invariant 0 <= i <= 8
      invariant |priceMicro| == 8
      invariant forall j :: 0 <= j < i ==> priceMicro[j] == pad[j] ^ p[j]
    {
      priceMicro := priceMicro[i := pad[i] ^ p[i]];
      i := i + 1;
    }
    assert priceMicro == Xor(pad[..8], p[..8]);
    r := BigEndianUint64(priceMicro);
    assert PutUint64(Square(pad, p)) == priceMicro;
  }

  /** The two argument roles are interchangeable. */
  lemma SquareSymmetric(a: seq<byte>, b: seq<byte>)
    requires |a| >= 8 && |b| >= 8
    ensures Square(a, b) == Square(b, a)
  {
  }

  /** Unmasking a value with itself gives zero. */
  lemma SquareSelf(x: seq<byte>)
    requires |x| >= 8
    ensures Square(x, x) == 0
  {
  }

  /** Bytes past the eighth are never read. */
  lemma SquareReadsEightBytes(a: seq<byte>, a': seq<byte>, b: seq<byte>, b': seq<byte>)
    requires |a| >= 8 && |a'| >= 8 && |b| >= 8 && |b'| >= 8
    requires a[..8] == a'[..8] && b[..8] == b'[..8]
    ensures Square(a, b) == Square(a', b')
  {
    BigEndianUint64Injective(a, a');
    BigEndianUint64Injective(b, b');
  }

  /** `maind`: both formulations on the same pad and price bytes 1..8. */
  method Maind() returns (square: uint64, square2: uint64)
    ensures square == 0 && square2 == 0
  {
    var pad: seq<byte> := [1, 2, 3, 4, 5, 6, 7, 8];
    var p: seq<byte> := [1, 2, 3, 4, 5, 6, 7, 8];
    square := Square(pad, p);
    square2 := Square2(pad, p);
    SquareSelf(pad);
  }
}

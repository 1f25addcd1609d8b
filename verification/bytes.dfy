/** Go's fixed-width integers and the big-endian byte order of `encoding/binary`.
    A Go `byte` is a `bv8`, `uint32` a `bv32` and `uint64` a `bv64`, so `^`, `<<`,
    `>>` and truncating conversions behave as in Go. */
module Bytes {

  type byte = bv8
  type uint32 = bv32
  type uint64 = bv64

  /** Byte-wise exclusive or of two equally long byte strings. */
  function Xor(a: seq<byte>, b: seq<byte>): (r: seq<byte>)
    requires |a| == |b|
    ensures |r| == |a|
    ensures forall i :: 0 <= i < |r| ==> r[i] == a[i] ^ b[i]
  {
    seq(|a|, i requires 0 <= i < |a| => a[i] ^ b[i])
  }

  /** `binary.BigEndian.Uint64`: the first eight bytes, most significant first,
      so byte `i` of the word counted from the top is `b[i]`. Go panics on a
      shorter slice, hence the precondition. */
  function BigEndianUint64(b: seq<byte>): (r: uint64)
    requires |b| >= 8
    ensures ((r >> 56) & 0xFF) as byte == b[0] && ((r >> 48) & 0xFF) as byte == b[1]
    ensures ((r >> 40) & 0xFF) as byte == b[2] && ((r >> 32) & 0xFF) as byte == b[3]
    ensures ((r >> 24) & 0xFF) as byte == b[4] && ((r >> 16) & 0xFF) as byte == b[5]
    ensures ((r >> 8) & 0xFF) as byte == b[6] && (r & 0xFF) as byte == b[7]
  {
    ((b[0] as uint64) << 56) | ((b[1] as uint64) << 48) | ((b[2] as uint64) << 40) | ((b[3] as uint64) << 32)
    | ((b[4] as uint64) << 24) | ((b[5] as uint64) << 16) | ((b[6] as uint64) << 8) | (b[7] as uint64)
  }

  /** `binary.BigEndian.Uint32`: the first four bytes, most significant first,
      so byte `i` of the word counted from the top is `b[i]`. */
  function BigEndianUint32(b: seq<byte>): (r: uint32)
    requires |b| >= 4
    ensures ((r >> 24) & 0xFF) as byte == b[0] && ((r >> 16) & 0xFF) as byte == b[1]
    ensures ((r >> 8) & 0xFF) as byte == b[2] && (r & 0xFF) as byte == b[3]
  {
    ((b[0] as uint32) << 24) | ((b[1] as uint32) << 16) | ((b[2] as uint32) << 8) | (b[3] as uint32)
  }

  /** `binary.BigEndian.PutUint64` into a fresh eight-byte array. */
  function PutUint64(v: uint64): (b: seq<byte>)
    ensures |b| == 8
    ensures BigEndianUint64(b) == v
  {
    [((v >> 56) & 0xFF) as byte, ((v >> 48) & 0xFF) as byte, ((v >> 40) & 0xFF) as byte, ((v >> 32) & 0xFF) as byte,
     ((v >> 24) & 0xFF) as byte, ((v >> 16) & 0xFF) as byte, ((v >> 8) & 0xFF) as byte, (v & 0xFF) as byte]
  }

  /** Big-endian decoding loses nothing: re-encoding gives back the eight bytes read. */
  lemma PutUint64OfBigEndian(b: seq<byte>)
    requires |b| >= 8
    ensures PutUint64(BigEndianUint64(b)) == b[..8]
  {
  }

  /** Two byte strings decode to the same `uint64` exactly when their first eight bytes agree. */
  lemma BigEndianUint64Injective(a: seq<byte>, b: seq<byte>)
    requires |a| >= 8 && |b| >= 8
    ensures BigEndianUint64(a) == BigEndianUint64(b) <==> a[..8] == b[..8]
  {
    if BigEndianUint64(a) == BigEndianUint64(b) {
      PutUint64OfBigEndian(a);
      PutUint64OfBigEndian(b);
    }
  }

  /** Two byte strings decode to the same `uint32` exactly when their first four bytes agree. */
  lemma BigEndianUint32Injective(a: seq<byte>, b: seq<byte>)
    requires |a| >= 4 && |b| >= 4
    ensures BigEndianUint32(a) == BigEndianUint32(b) <==> a[..4] == b[..4]
  {
    if BigEndianUint32(a) == BigEndianUint32(b) {
      assert a[0] == b[0] && a[1] == b[1] && a[2] == b[2] && a[3] == b[3];
    }
  }

  /** Big-endian decoding distributes over exclusive or: XOR-ing the words is
      XOR-ing the bytes and then decoding. */
  lemma BigEndianUint64Xor(a: seq<byte>, b: seq<byte>)
    requires |a| >= 8 && |b| >= 8
    ensures BigEndianUint64(a) ^ BigEndianUint64(b) == BigEndianUint64(Xor(a[..8], b[..8]))
  {
  }

  /** XOR with the same pad twice is the identity. */
  lemma XorInvolution(pad: seq<byte>, data: seq<byte>)
    requires |pad| == |data|
    ensures Xor(pad, Xor(pad, data)) == data
  {
    assert forall i :: 0 <= i < |data| ==> pad[i] ^ (pad[i] ^ data[i]) == data[i];
  }
}

/** Go's `base64.RawURLEncoding`: the URL- and filename-safe alphabet of
    section 5 of RFC 4648 with padding omitted (section 3.2). Encoding and
    decoding work quantum by quantum like `encoding/base64`: three bytes become
    four characters, and a final one or two bytes become two or three
    characters. Decoding is Go's default non-strict mode: the unused low bits
    of a final partial quantum are ignored. */
module Base64Url {
  import opened Bytes

  /** Result of `Decode`: the bytes, or Go's `CorruptInputError` carrying the
      offset of the offending input byte. */
  datatype Decoded = Decoded(bytes: seq<byte>) | CorruptInputError(offset: nat)

  /** Membership in the alphabet `A-Z a-z 0-9 - _`, as ASCII byte values. */
  predicate IsUrlSafeChar(c: byte) {
    || (0x41 <= c <= 0x5A)
    || (0x61 <= c <= 0x7A)
    || (0x30 <= c <= 0x39)
    || c == 0x2D
    || c == 0x5F
  }

  predicate AllUrlSafe(s: seq<byte>) {
    forall i :: 0 <= i < |s| ==> IsUrlSafeChar(s[i])
  }

  /** Go's decode table: the 6-bit value of an alphabet character, 0xFF for any other byte. */
  function DecodeMap(c: byte): (v: byte)
    ensures v != 0xFF <==> IsUrlSafeChar(c)
    ensures v != 0xFF ==> v < 64
  {
    if 0x41 <= c <= 0x5A then c - 0x41
    else if 0x61 <= c <= 0x7A then c - 0x47
    else if 0x30 <= c <= 0x39 then c + 4
    else if c == 0x2D then 62
    else if c == 0x5F then 63
    else 0xFF
  }

  /** Go's encode table: the alphabet character of a 6-bit value. */
  function EncodeSextet(v: byte): (c: byte)
    requires v < 64
    ensures IsUrlSafeChar(c)
    ensures DecodeMap(c) == v
  {
    if v < 26 then v + 0x41
    else if v < 52 then v + 0x47
    else if v < 62 then v - 4
    else if v == 62 then 0x2D
    else 0x5F
  }

  /** Every alphabet character is the encoding of its own decode-table value. */
  lemma EncodeSextetOfDecodeMap(c: byte)
    requires IsUrlSafeChar(c)
    ensures EncodeSextet(DecodeMap(c)) == c
  {
  }

  /** `RawURLEncoding.EncodedLen`: the fewest six-bit characters that hold
      `n` bytes, from which `DecodedLen` recovers `n`. */
  function EncodedLen(n: nat): (r: nat)
    ensures n * 8 <= r * 6 < n * 8 + 6
    ensures DecodedLen(r) == n
  {
    var q, m := n / 3, n % 3;
    var r := q * 4 + (m * 8 + 5) / 6;
    assert n == 3 * q + m && (m == 0 || m == 1 || m == 2);
    assert r == 4 * q + (if m == 0 then 0 else m + 1);
    r
  }

  /** `RawURLEncoding.DecodedLen`: the whole bytes that `n` six-bit characters hold. */
  function DecodedLen(n: nat): (r: nat)
    ensures r * 8 <= n * 6 < r * 8 + 8
  {
    n * 6 / 8
  }

  /** Every length that is not 1 mod 4 is the encoded length of its decoded length. */
  lemma EncodedLenOfDecodedLen(n: nat)
    requires n % 4 != 1
    ensures EncodedLen(DecodedLen(n)) == n
  {
    var q, m := n / 4, n % 4;
    assert n * 6 == 8 * (3 * q) + m * 6;
    assert DecodedLen(n) == 3 * q + (if m == 0 then 0 else if m == 2 then 1 else 2);
  }

  /** The encoder's 24-bit block value of three bytes. */
  function Pack(b0: byte, b1: byte, b2: byte): bv32 {
    ((b0 as bv32) << 16) | ((b1 as bv32) << 8) | (b2 as bv32)
  }

  /** The decoder's 24-bit block value of four 6-bit values. */
  function Join(v0: byte, v1: byte, v2: byte, v3: byte): bv32 {
    ((v0 as bv32) << 18) | ((v1 as bv32) << 12) | ((v2 as bv32) << 6) | (v3 as bv32)
  }

  /** The six-bit group of a block value starting at bit `shift`. */
  function Sextet(val: bv32, shift: bv32): (v: byte)
    requires shift <= 18
    ensures v < 64
  {
    ((val >> shift) & 0x3F) as byte
  }

  /** The byte of a block value starting at bit `shift`. */
  function Octet(val: bv32, shift: bv32): byte
    requires shift <= 16
  {
    ((val >> shift) & 0xFF) as byte
  }

  /** One quantum of the encoder: one to three bytes become two to four
      characters; absent bytes read as zero. */
  function EncodeBlock(src: seq<byte>): (dst: seq<byte>)
    requires 1 <= |src| <= 3
    ensures |dst| == |src| + 1
    ensures AllUrlSafe(dst)
  {
    var val := Pack(src[0], if |src| > 1 then src[1] else 0, if |src| > 2 then src[2] else 0);
    var all := [EncodeSextet(Sextet(val, 18)), EncodeSextet(Sextet(val, 12)),
                EncodeSextet(Sextet(val, 6)), EncodeSextet(Sextet(val, 0))];
    all[..|src| + 1]
  }

  /** `RawURLEncoding.EncodeToString`. */
  function Encode(src: seq<byte>): (dst: seq<byte>)
    ensures |dst| == EncodedLen(|src|)
    ensures AllUrlSafe(dst)
    decreases |src|
  {
    if |src| == 0 then []
    else if |src| <= 3 then EncodeBlock(src)
    else EncodeBlock(src[..3]) + Encode(src[3..])
  }

  /** `k` is where Go's decoder stops: every earlier byte is in the alphabet,
      and byte `k` is not, or it is the lone last character of an input whose
      length is one more than a multiple of four. */
  predicate IsFirstError(src: seq<byte>, k: nat) {
    && k < |src|
    && AllUrlSafe(src[..k])
    && (!IsUrlSafeChar(src[k]) || (k == |src| - 1 && |src| % 4 == 1))
  }

  /** One quantum of the decoder (Go's `decodeQuantum`): two to four
      characters become one to three bytes; the first character outside the
      alphabet is reported by its offset. */
  function DecodeBlock(src: seq<byte>): (r: Decoded)
    requires 2 <= |src| <= 4
    ensures r.Decoded? <==> AllUrlSafe(src)
    ensures r.Decoded? ==> |r.bytes| == |src| - 1
    ensures r.CorruptInputError? ==> IsFirstError(src, r.offset)
  {
    if !IsUrlSafeChar(src[0]) then CorruptInputError(0)
    else if !IsUrlSafeChar(src[1]) then CorruptInputError(1)
    else if |src| > 2 && !IsUrlSafeChar(src[2]) then CorruptInputError(2)
    else if |src| > 3 && !IsUrlSafeChar(src[3]) then CorruptInputError(3)
    else
      var val := Join(DecodeMap(src[0]), DecodeMap(src[1]),
                      if |src| > 2 then DecodeMap(src[2]) else 0,
                      if |src| > 3 then DecodeMap(src[3]) else 0);
      Decoded([Octet(val, 16), Octet(val, 8), Octet(val, 0)][..|src| - 1])
  }

  /** `RawURLEncoding.Decode`: succeeds exactly on inputs over the alphabet whose
      length is not one more than a multiple of four, and otherwise reports
      the first offending offset. */
  function Decode(src: seq<byte>): (r: Decoded)
    ensures r.Decoded? <==> AllUrlSafe(src) && |src| % 4 != 1
    ensures r.Decoded? ==> |r.bytes| == DecodedLen(|src|)
    ensures r.CorruptInputError? ==> IsFirstError(src, r.offset)
    decreases |src|
  {
    if |src| == 0 then Decoded([])
    else if |src| == 1 then CorruptInputError(0)
    else if |src| <= 4 then DecodeBlock(src)
    else
      AllUrlSafeSplit(src, 4);
      match DecodeBlock(src[..4])
      case CorruptInputError(k) =>
        FirstErrorInPrefix(src, 4, k);
        CorruptInputError(k)
      case Decoded(head) =>
        match Decode(src[4..])
        case CorruptInputError(k) =>
          FirstErrorInSuffix(src, 4, k);
          CorruptInputError(k + 4)
        case Decoded(tail) => Decoded(head + tail)
  }

  lemma AllUrlSafeSplit(s: seq<byte>, n: nat)
    requires n <= |s|
    ensures AllUrlSafe(s) <==> AllUrlSafe(s[..n]) && AllUrlSafe(s[n..])
  {
    if AllUrlSafe(s[..n]) && AllUrlSafe(s[n..]) {
      forall i | 0 <= i < |s|
        ensures IsUrlSafeChar(s[i])
      {
        if i < n {
          assert s[i] == s[..n][i];
        } else {
          assert s[i] == s[n..][i - n];
        }
      }
    }
  }

  /** An error inside the first quantum of a longer input is the first error of the whole. */
  lemma FirstErrorInPrefix(src: seq<byte>, n: nat, k: nat)
    requires n < |src| && n % 4 == 0 && n > 0
    requires IsFirstError(src[..n], k)
    ensures IsFirstError(src, k)
  {
    assert src[..n][..k] == src[..k];
    assert src[..n][k] == src[k];
  }

  /** An error after a well-formed first quantum sits `n` bytes further on in the whole input. */
  lemma FirstErrorInSuffix(src: seq<byte>, n: nat, k: nat)
    requires n <= |src| && n % 4 == 0
    requires AllUrlSafe(src[..n])
    requires IsFirstError(src[n..], k)
    ensures IsFirstError(src, k + n)
  {
    assert src[..k + n][..n] == src[..n];
    assert src[..k + n][n..] == src[n..][..k];
    AllUrlSafeSplit(src[..k + n], n);
    assert src[n..][k] == src[k + n];
  }

  /** The final partial quantum carries no unused set bits (what Go's strict
      mode would demand; the non-strict decoder ignores those bits). */
  predicate IsCanonical(s: seq<byte>) {
    && (|s| % 4 == 2 ==> DecodeMap(s[|s| - 1]) & 0x0F == 0)
    && (|s| % 4 == 3 ==> DecodeMap(s[|s| - 1]) & 0x03 == 0)
  }

  /** Splitting three bytes into sextets and joining them back loses nothing;
      a zero byte contributes zero sextets. */
  lemma JoinOfSextets(b0: byte, b1: byte, b2: byte)
    ensures var val := Pack(b0, b1, b2);
      var joined := Join(Sextet(val, 18), Sextet(val, 12), Sextet(val, 6), Sextet(val, 0));
      Octet(joined, 16) == b0 && Octet(joined, 8) == b1 && Octet(joined, 0) == b2
    ensures b2 == 0 ==> Sextet(Pack(b0, b1, b2), 0) == 0
    ensures b1 == 0 && b2 == 0 ==> Sextet(Pack(b0, b1, b2), 6) == 0
  {
  }

  /** Joining four sextets into bytes and splitting them back loses nothing;
      the low bits of a last sextet that are clear give zero bytes. */
  lemma SextetsOfJoin(v0: byte, v1: byte, v2: byte, v3: byte)
    requires v0 < 64 && v1 < 64 && v2 < 64 && v3 < 64
    ensures var joined := Join(v0, v1, v2, v3);
      var val := Pack(Octet(joined, 16), Octet(joined, 8), Octet(joined, 0));
      Sextet(val, 18) == v0 && Sextet(val, 12) == v1 && Sextet(val, 6) == v2 && Sextet(val, 0) == v3
    ensures v3 == 0 && v2 & 0x03 == 0 ==> Octet(Join(v0, v1, v2, v3), 0) == 0
    ensures v3 == 0 && v2 == 0 && v1 & 0x0F == 0 ==> Octet(Join(v0, v1, v2, v3), 8) == 0
  {
  }

  lemma DecodeEncodeBlock(src: seq<byte>)
    requires 1 <= |src| <= 3
    ensures DecodeBlock(EncodeBlock(src)) == Decoded(src)
  {
    JoinOfSextets(src[0], if |src| > 1 then src[1] else 0, if |src| > 2 then src[2] else 0);
  }

  /** Decoding undoes encoding, for every byte string. */
  lemma {:induction false} DecodeEncode(src: seq<byte>)
    ensures Decode(Encode(src)) == Decoded(src)
    decreases |src|
  {
    if |src| == 0 {
      assert Encode(src) == [];
    } else if |src| <= 3 {
      assert Encode(src) == EncodeBlock(src);
      DecodeEncodeBlock(src);
    } else {
      DecodeEncode(src[3..]);
      DecodeEncodeStep(src);
    }
  }

  /** The inductive step: the first three bytes round-trip through one quantum. */
  lemma DecodeEncodeStep(src: seq<byte>)
    requires |src| > 3
    requires Decode(Encode(src[3..])) == Decoded(src[3..])
    ensures Decode(Encode(src)) == Decoded(src)
  {
    var enc := Encode(src);
    assert enc[..4] == EncodeBlock(src[..3]) && enc[4..] == Encode(src[3..]) by {
      EncodeSplit(src);
    }
    assert DecodeBlock(enc[..4]) == Decoded(src[..3]) by {
      DecodeEncodeBlock(src[..3]);
    }
    DecodeSplit(enc, src[..3], src[3..]);
    PrefixSuffix(src, 3);
  }

  lemma PrefixSuffix(s: seq<byte>, n: nat)
    requires n <= |s|
    ensures s[..n] + s[n..] == s
  {
  }

  /** Encoding a long input is encoding its first three bytes, then the rest. */
  lemma EncodeSplit(src: seq<byte>)
    requires |src| > 3
    ensures Encode(src)[..4] == EncodeBlock(src[..3])
    ensures Encode(src)[4..] == Encode(src[3..])
  {
    var head := EncodeBlock(src[..3]);
    assert Encode(src) == head + Encode(src[3..]);
  }

  /** Decoding a long input is decoding its first quantum, then the rest. */
  lemma DecodeSplit(enc: seq<byte>, head: seq<byte>, tail: seq<byte>)
    requires |enc| > 4
    requires DecodeBlock(enc[..4]) == Decoded(head)
    requires Decode(enc[4..]) == Decoded(tail)
    ensures Decode(enc) == Decoded(head + tail)
  {
  }

  lemma EncodeDecodeBlock(src: seq<byte>)
    requires 2 <= |src| <= 4
    requires AllUrlSafe(src) && IsCanonical(src)
    ensures DecodeBlock(src).Decoded? && EncodeBlock(DecodeBlock(src).bytes) == src
  {
    var v0 := DecodeMap(src[0]);
    var v1 := DecodeMap(src[1]);
    var v2 := if |src| > 2 then DecodeMap(src[2]) else 0;
    var v3 := if |src| > 3 then DecodeMap(src[3]) else 0;
    SextetsOfJoin(v0, v1, v2, v3);
    EncodeSextetOfDecodeMap(src[0]);
    EncodeSextetOfDecodeMap(src[1]);
    if |src| > 2 {
      EncodeSextetOfDecodeMap(src[2]);
    }
    if |src| > 3 {
      EncodeSextetOfDecodeMap(src[3]);
    }
  }

  /** Encoding undoes decoding for every canonical input: a canonical text is
      the only encoding of the bytes it decodes to. */
  lemma {:induction false} EncodeDecode(s: seq<byte>, b: seq<byte>)
    requires Decode(s) == Decoded(b)
    requires IsCanonical(s)
    ensures Encode(b) == s
    decreases |s|
  {
    if |s| == 0 {
    } else if |s| <= 4 {
      EncodeDecodeLast(s, b);
    } else {
      AllUrlSafeSplit(s, 4);
      assert Decode(s[4..]).Decoded?;
      var tail := Decode(s[4..]).bytes;
      assert IsCanonical(s[4..]) by {
        assert s[4..][|s[4..]| - 1] == s[|s| - 1];
      }
      EncodeDecode(s[4..], tail);
      EncodeDecodeStep(s, b);
    }
  }

  /** The base case: a final quantum re-encodes to itself. */
  lemma EncodeDecodeLast(s: seq<byte>, b: seq<byte>)
    requires 0 < |s| <= 4
    requires Decode(s) == Decoded(b)
    requires IsCanonical(s)
    ensures Encode(b) == s
  {
    EncodeDecodeBlock(s);
    assert b == DecodeBlock(s).bytes;
    assert Encode(b) == EncodeBlock(b);
  }

  /** The inductive step: the first quantum re-encodes to the first four characters. */
  lemma EncodeDecodeStep(s: seq<byte>, b: seq<byte>)
    requires |s| > 4
    requires Decode(s) == Decoded(b)
    requires Decode(s[4..]).Decoded? && Encode(Decode(s[4..]).bytes) == s[4..]
    ensures Encode(b) == s
  {
    var head := DecodeBlock(s[..4]).bytes;
    var tail := Decode(s[4..]).bytes;
    assert b == head + tail;
    assert EncodeBlock(head) == s[..4] by {
      assert AllUrlSafe(s[..4]) && IsCanonical(s[..4]);
      EncodeDecodeBlock(s[..4]);
    }
    assert b[..3] == head && b[3..] == tail;
    assert Encode(b) == EncodeBlock(b[..3]) + Encode(b[3..]);
    PrefixSuffix(s, 4);
  }

  /** A final quantum of the encoder leaves the unused low bits of its last
      character clear. */
  lemma EncodeBlockCanonical(src: seq<byte>)
    requires 1 <= |src| <= 3
    ensures IsCanonical(EncodeBlock(src))
  {
    var val := Pack(src[0], if |src| > 1 then src[1] else 0, if |src| > 2 then src[2] else 0);
    if |src| == 1 {
      assert Sextet(val, 12) & 0x0F == 0;
    } else if |src| == 2 {
      assert Sextet(val, 6) & 0x03 == 0;
    }
  }

  /** The encoder only produces canonical text: together with `EncodeDecode`,
      the encoding is the one text without stray trailing bits that decodes to
      the input. */
  lemma {:induction false} EncodeCanonical(src: seq<byte>)
    ensures IsCanonical(Encode(src))
    decreases |src|
  {
    if |src| == 0 {
    } else if |src| <= 3 {
      EncodeBlockCanonical(src);
    } else {
      EncodeCanonical(src[3..]);
      CanonicalAfterQuantum(EncodeBlock(src[..3]), Encode(src[3..]));
    }
  }

  /** A full leading quantum does not change whether a text is canonical. */
  lemma CanonicalAfterQuantum(head: seq<byte>, tail: seq<byte>)
    requires |head| == 4 && |tail| > 0
    requires IsCanonical(tail)
    ensures IsCanonical(head + tail)
  {
    assert (head + tail)[|head + tail| - 1] == tail[|tail| - 1];
  }

  /** The decoded byte of a final two-character quantum depends on the top
      two bits of the second sextet only. */
  lemma OctetIgnoresLowBits(v0: byte, v1: byte, w1: byte)
    requires v0 < 64 && v1 < 64 && w1 < 64
    requires v1 & 0x30 == w1 & 0x30
    ensures Octet(Join(v0, v1, 0, 0), 16) == Octet(Join(v0, w1, 0, 0), 16)
  {
  }

  /** Go's non-strict decoding: when the input ends in a two-character
      quantum, the low four bits of the last character are ignored, so the
      last character can be swapped for any alphabet character that agrees
      with it on the top two bits of its value without changing the result. */
  lemma {:induction false} DecodeIgnoresUnusedBits(s: seq<byte>, c: byte)
    requires |s| % 4 == 2
    requires IsUrlSafeChar(c) && IsUrlSafeChar(s[|s| - 1])
    requires DecodeMap(c) & 0x30 == DecodeMap(s[|s| - 1]) & 0x30
    ensures Decode(s[..|s| - 1] + [c]) == Decode(s)
    decreases |s|
  {
    var t := s[..|s| - 1] + [c];
    if |s| == 2 {
      if IsUrlSafeChar(s[0]) {
        OctetIgnoresLowBits(DecodeMap(s[0]), DecodeMap(c), DecodeMap(s[1]));
      }
    } else {
      var rest := s[4..];
      assert rest[|rest| - 1] == s[|s| - 1];
      DecodeIgnoresUnusedBits(rest, c);
      assert t[..4] == s[..4];
      assert t[4..] == rest[..|rest| - 1] + [c];
    }
  }
}

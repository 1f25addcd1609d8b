/** The `pricers` package's `DoubleClickPricer`: `Encrypt` keys its HMAC
    computations with the pricer's keyed hashes, while `DecryptRaw` builds
    fresh HMACs from the raw key bytes. The two agree only when the raw bytes
    are the ones the hashes were keyed with. */
module Pricers {
  import opened Bytes
  import Base64Url
  import PriceCipher

  /** A constructed pricer: raw key bytes for decryption, the bytes its two
      hashes are keyed with for encryption, and its scale factor. */
  datatype DoubleClickPricer = DoubleClickPricer(
    encryptionKeyRaw: seq<byte>,
    integrityKeyRaw: seq<byte>,
    encryptionKey: seq<byte>,
    integrityKey: seq<byte>,
    scaleFactor: PriceCipher.ScaleFactor)

  /** What the constructor establishes when both key decodings agree: each
      hash is keyed with the raw bytes kept for the same role. */
  predicate KeysAgree(dc: DoubleClickPricer) {
    dc.encryptionKeyRaw == dc.encryptionKey && dc.integrityKeyRaw == dc.integrityKey
  }

  /** `Encrypt` on the eight micros bytes of a price, with the keyed hashes:
      never fails, and the token is 38 alphabet characters decoding to
      MD5(seed) ++ (pad XOR data) ++ signature over data ++ IV. */
  function Encrypt(c: PriceCipher.Crypto, dc: DoubleClickPricer, seed: seq<byte>, data: PriceCipher.Micros)
    : (r: PriceCipher.Result<seq<byte>>)
    ensures r.err == PriceCipher.Nil
    ensures |r.value| == PriceCipher.TokenLength && Base64Url.AllUrlSafe(r.value)
    ensures Base64Url.IsCanonical(r.value)
    ensures var payload := PriceCipher.Payload(c, dc.encryptionKey, dc.integrityKey, seed, data);
      && Base64Url.Decode(r.value) == Base64Url.Decoded(payload)
      && payload[..16] == c.md5(seed)
      && payload[16..24] == Xor(PriceCipher.Pad(c, dc.encryptionKey, c.md5(seed)), data)
      && payload[24..] == PriceCipher.Signature(c, dc.integrityKey, data, c.md5(seed))
  {
    PriceCipher.Encrypt(c, dc.encryptionKey, dc.integrityKey, seed, data)
  }

  /** `DecryptRaw` with the raw keys (the scratch buffer is not modelled):
      every error carries micros 0, a wrong trimmed length is `ErrWrongSize`,
      a decode failure is the decoder's own error, and the error is nil exactly
      when the signature recomputed with the raw integrity key matches. */
  function DecryptRaw(c: PriceCipher.Crypto, dc: DoubleClickPricer, token: seq<byte>): (r: PriceCipher.Result<uint64>)
    ensures r.err != PriceCipher.Nil ==> r.value == 0
    ensures r.err == PriceCipher.ErrWrongSize <==> |PriceCipher.TrimRight(token, PriceCipher.PadChar)| != PriceCipher.TokenLength
    ensures var trimmed := PriceCipher.TrimRight(token, PriceCipher.PadChar);
      r.err.CorruptInputError? <==> |trimmed| == PriceCipher.TokenLength && Base64Url.Decode(trimmed).CorruptInputError?
    ensures var trimmed := PriceCipher.TrimRight(token, PriceCipher.PadChar);
      r.err.CorruptInputError? ==> r.err == PriceCipher.CorruptInputError(Base64Url.Decode(trimmed).offset)
    ensures var trimmed := PriceCipher.TrimRight(token, PriceCipher.PadChar);
      r.err == PriceCipher.Nil ==>
        && Base64Url.Decode(trimmed).Decoded?
        && PriceCipher.Authentic(c, dc.encryptionKeyRaw, dc.integrityKeyRaw, Base64Url.Decode(trimmed).bytes)
        && PutUint64(r.value) == PriceCipher.RecoveredData(c, dc.encryptionKeyRaw, Base64Url.Decode(trimmed).bytes)
    ensures var trimmed := PriceCipher.TrimRight(token, PriceCipher.PadChar);
      (|trimmed| == PriceCipher.TokenLength && Base64Url.Decode(trimmed).Decoded?
        && !PriceCipher.Authentic(c, dc.encryptionKeyRaw, dc.integrityKeyRaw, Base64Url.Decode(trimmed).bytes))
        ==> r == PriceCipher.Result(0, PriceCipher.ErrWrongSignature)
    ensures var trimmed := PriceCipher.TrimRight(token, PriceCipher.PadChar);
      (|trimmed| == PriceCipher.TokenLength && Base64Url.Decode(trimmed).Decoded?
        && PriceCipher.Authentic(c, dc.encryptionKeyRaw, dc.integrityKeyRaw, Base64Url.Decode(trimmed).bytes))
        ==> r.err == PriceCipher.Nil
  {
    PriceCipher.DecryptRaw(c, dc.encryptionKeyRaw, dc.integrityKeyRaw, token)
  }

  /** `Decrypt`: `DecryptRaw`'s error, and price 0 with every error. */
  function Decrypt(c: PriceCipher.Crypto, dc: DoubleClickPricer, token: seq<byte>): (r: PriceCipher.Result<PriceCipher.Price>)
    ensures r.err == DecryptRaw(c, dc, token).err
    ensures r.err != PriceCipher.Nil ==> r.value.micros == 0
    ensures r.value.scaleFactor == dc.scaleFactor
  {
    PriceCipher.Decrypt(c, dc.encryptionKeyRaw, dc.integrityKeyRaw, dc.scaleFactor, token)
  }

  /** With agreeing keys, a token from `Encrypt` decrypts to the big-endian
      value of the encrypted bytes. */
  lemma RoundTrip(c: PriceCipher.Crypto, dc: DoubleClickPricer, seed: seq<byte>, data: PriceCipher.Micros)
    requires KeysAgree(dc)
    ensures DecryptRaw(c, dc, Encrypt(c, dc, seed, data).value) == PriceCipher.Result(BigEndianUint64(data), PriceCipher.Nil)
    ensures Decrypt(c, dc, Encrypt(c, dc, seed, data).value)
         == PriceCipher.Result(PriceCipher.Price(BigEndianUint64(data), dc.scaleFactor), PriceCipher.Nil)
  {
    PriceCipher.RoundTrip(c, dc.encryptionKey, dc.integrityKey, seed, data);
  }

  /** An HMAC that ignores the message and repeats the key's first byte, and
      an MD5 that always gives zeros. */
  function KeyEchoCrypto(): PriceCipher.Crypto {
    PriceCipher.Crypto(
      (m: seq<byte>) => seq(16, _ => 0),
      (k: seq<byte>, m: seq<byte>) => if |k| > 0 then seq(8, _ => k[0]) else seq(8, _ => 0))
  }

  /** A pricer whose raw encryption key differs from its hashed one. */
  function SkewedPricer(): (dc: DoubleClickPricer)
    ensures !KeysAgree(dc)
  {
    DoubleClickPricer([1], [], [0], [], 1000000.0)
  }

  /** The agreement requirement of `RoundTrip` cannot be dropped: with a raw
      encryption key that differs from the hashed one, a token from `Encrypt`
      is accepted but decrypts to a different price. */
  lemma SkewedKeysBreakRoundTrip(seed: seq<byte>)
    ensures var data: PriceCipher.Micros := seq(8, _ => 0);
      var r := DecryptRaw(KeyEchoCrypto(), SkewedPricer(), Encrypt(KeyEchoCrypto(), SkewedPricer(), seed, data).value);
      r.err == PriceCipher.Nil && r.value != BigEndianUint64(data)
  {
    var c := KeyEchoCrypto();
    var dc := SkewedPricer();
    var data: PriceCipher.Micros := seq(8, _ => 0);
    var token := Encrypt(c, dc, seed, data).value;
    var payload := PriceCipher.Payload(c, dc.encryptionKey, dc.integrityKey, seed, data);
    assert PriceCipher.TrimRight(token, PriceCipher.PadChar) == token by {
      assert token[|token| - 1] != PriceCipher.PadChar;
    }
    assert PriceCipher.Authentic(c, dc.encryptionKeyRaw, dc.integrityKeyRaw, payload);
    var r := DecryptRaw(c, dc, token);
    assert PutUint64(r.value) == PriceCipher.RecoveredData(c, dc.encryptionKeyRaw, payload);
    assert PutUint64(r.value)[0] == 1;
  }
}

/** The `doubleclick` package's `DoubleClickPricer`: both sides key their
    HMAC computations with the pricer's two keyed hashes, so encryption and
    decryption use the same key for each role by construction. */
module DoubleClick {
  import opened Bytes
  import Base64Url
  import PriceCipher

  /** A constructed pricer: the bytes its encryption and integrity hashes are
      keyed with, and its scale factor. */
  datatype DoubleClickPricer = DoubleClickPricer(
    encryptionKey: seq<byte>,
    integrityKey: seq<byte>,
    scaleFactor: PriceCipher.ScaleFactor)

  /** `Encrypt` on the eight micros bytes of a price: never fails, and the
      token is 38 alphabet characters decoding to MD5(seed) ++ (pad XOR data)
      ++ signature. */
  function Encrypt(c: PriceCipher.Crypto, dc: DoubleClickPricer, seed: seq<byte>, data: PriceCipher.Micros)
    : (r: PriceCipher.Result<seq<byte>>)
    ensures r.err == PriceCipher.Nil
    ensures |r.value| == PriceCipher.TokenLength && Base64Url.AllUrlSafe(r.value)
    ensures Base64Url.IsCanonical(r.value)
    ensures var payload := PriceCipher.Payload(c, dc.encryptionKey, dc.integrityKey, seed, data);
      && Base64Url.Decode(r.value) == Base64Url.Decoded(payload)
      && payload[..16] == c.md5(seed)
      && payload[16..24] == Xor(PriceCipher.Pad(c, dc.encryptionKey, c.md5(seed)), data)
      && payload[24..] == PriceCipher.Signature(c, dc.integrityKey, data, c.md5(seed))
  {
    PriceCipher.Encrypt(c, dc.encryptionKey, dc.integrityKey, seed, data)
  }

  /** `DecryptRaw` (the scratch buffer is not modelled): every error carries
      micros 0, a wrong trimmed length is `ErrWrongSize`, a decode failure is
      the decoder's own error, and the error is nil exactly when the
      recomputed signature matches, with the unmasked price. */
  function DecryptRaw(c: PriceCipher.Crypto, dc: DoubleClickPricer, token: seq<byte>): (r: PriceCipher.Result<uint64>)
    ensures r.err != PriceCipher.Nil ==> r.value == 0
    ensures r.err == PriceCipher.ErrWrongSize <==> |PriceCipher.TrimRight(token, PriceCipher.PadChar)| != PriceCipher.TokenLength
    ensures var trimmed := PriceCipher.TrimRight(token, PriceCipher.PadChar);
      r.err.CorruptInputError? <==> |trimmed| == PriceCipher.TokenLength && Base64Url.Decode(trimmed).CorruptInputError?
    ensures var trimmed := PriceCipher.TrimRight(token, PriceCipher.PadChar);
      r.err.CorruptInputError? ==> r.err == PriceCipher.CorruptInputError(Base64Url.Decode(trimmed).offset)
    ensures var trimmed := PriceCipher.TrimRight(token, PriceCipher.PadChar);
      r.err == PriceCipher.Nil ==>
        && Base64Url.Decode(trimmed).Decoded?
        && PriceCipher.Authentic(c, dc.encryptionKey, dc.integrityKey, Base64Url.Decode(trimmed).bytes)
        && PutUint64(r.value) == PriceCipher.RecoveredData(c, dc.encryptionKey, Base64Url.Decode(trimmed).bytes)
    ensures var trimmed := PriceCipher.TrimRight(token, PriceCipher.PadChar);
      (|trimmed| == PriceCipher.TokenLength && Base64Url.Decode(trimmed).Decoded?
        && !PriceCipher.Authentic(c, dc.encryptionKey, dc.integrityKey, Base64Url.Decode(trimmed).bytes))
        ==> r == PriceCipher.Result(0, PriceCipher.ErrWrongSignature)
    ensures var trimmed := PriceCipher.TrimRight(token, PriceCipher.PadChar);
      (|trimmed| == PriceCipher.TokenLength && Base64Url.Decode(trimmed).Decoded?
        && PriceCipher.Authentic(c, dc.encryptionKey, dc.integrityKey, Base64Url.Decode(trimmed).bytes))
        ==> r.err == PriceCipher.Nil
  {
    PriceCipher.DecryptRaw(c, dc.encryptionKey, dc.integrityKey, token)
  }

  /** `Decrypt`: `DecryptRaw`'s error, and price 0 with every error. */
  function Decrypt(c: PriceCipher.Crypto, dc: DoubleClickPricer, token: seq<byte>): (r: PriceCipher.Result<PriceCipher.Price>)
    ensures r.err == DecryptRaw(c, dc, token).err
    ensures r.err != PriceCipher.Nil ==> r.value.micros == 0
    ensures r.value.scaleFactor == dc.scaleFactor
  {
    PriceCipher.Decrypt(c, dc.encryptionKey, dc.integrityKey, dc.scaleFactor, token)
  }

  /** A token from `Encrypt` decrypts to the big-endian value of the
      encrypted bytes, and `Decrypt` to that many micros over the scale factor. */
  lemma RoundTrip(c: PriceCipher.Crypto, dc: DoubleClickPricer, seed: seq<byte>, data: PriceCipher.Micros)
    ensures DecryptRaw(c, dc, Encrypt(c, dc, seed, data).value) == PriceCipher.Result(BigEndianUint64(data), PriceCipher.Nil)
    ensures Decrypt(c, dc, Encrypt(c, dc, seed, data).value)
         == PriceCipher.Result(PriceCipher.Price(BigEndianUint64(data), dc.scaleFactor), PriceCipher.Nil)
  {
    PriceCipher.RoundTrip(c, dc.encryptionKey, dc.integrityKey, seed, data);
  }
}

/** The price-encryption transform shared by both copies of the DoubleClick
    pricer: IV = MD5(seed), pad = HMAC(encryption key, IV)[0:8],
    ciphertext = pad XOR price, signature = HMAC(integrity key, price ++ IV)[0:4],
    token = unpadded URL-safe base64 of IV ++ ciphertext ++ signature.

    MD5 and HMAC are not modelled: they are the two fields of `Crypto`, total
    functions of which only the output lengths are known. Every property below
    holds for every choice of them. Each operation takes the key used for each
    role explicitly, because the two copies key the decrypting side differently. */
module PriceCipher {
  import opened Bytes
  import Base64Url

  /** `md5.Sum` returns a `[16]byte`. */
  type Md5Sum = s: seq<byte> | |s| == 16 witness seq(16, _ => 0)

  /** An HMAC sum is at least as long as the eight bytes the pad takes from it. */
  type Mac = s: seq<byte> | |s| >= 8 witness seq(8, _ => 0)

  /** A price in micros as the eight bytes `ApplyScaleFactor` returns. */
  type Micros = s: seq<byte> | |s| == 8 witness seq(8, _ => 0)

  /** The factor a clear price is multiplied by before encryption. */
  type ScaleFactor = r: real | r > 0.0 witness 1000000.0

  /** The two hash primitives: `md5(message)` and `hmac(key, message)`. */
  datatype Crypto = Crypto(md5: seq<byte> -> Md5Sum, hmac: (seq<byte>, seq<byte>) -> Mac)

  /** Go's `error`: `Nil`, one of the two package errors, or the base64
      decoder's `CorruptInputError`. */
  datatype GoError = Nil | ErrWrongSize | ErrWrongSignature | CorruptInputError(offset: nat)

  /** Go's `(value, error)` return pair. */
  datatype Result<T> = Result(value: T, err: GoError)

  const PadChar: byte := 0x3D  // '='
  const TokenLength: nat := 38
  const PayloadLength: nat := 28

  /** `bytes.TrimRight(s, cut)` for a one-byte cut set: the longest prefix of
      `s` that does not end in `cut` and after which only `cut` follows. */
  function TrimRight(s: seq<byte>, cut: byte): (t: seq<byte>)
    ensures t <= s
    ensures |t| == 0 || t[|t| - 1] != cut
    ensures forall i :: |t| <= i < |s| ==> s[i] == cut
    decreases |s|
  {
    if |s| > 0 && s[|s| - 1] == cut then TrimRight(s[..|s| - 1], cut) else s
  }

  /** The keystream pad: the first eight bytes of HMAC(encryption key, IV). */
  function Pad(c: Crypto, eKey: seq<byte>, iv: seq<byte>): (pad: seq<byte>)
    ensures |pad| == 8
  {
    c.hmac(eKey, iv)[..8]
  }

  /** The integrity signature: the first four bytes of HMAC(integrity key, data ++ IV). */
  function Signature(c: Crypto, iKey: seq<byte>, data: seq<byte>, iv: seq<byte>): (sig: seq<byte>)
    ensures |sig| == 4
  {
    c.hmac(iKey, data + iv)[..4]
  }

  /** The price bytes a 28-byte payload carries: its ciphertext XOR the pad of its IV. */
  function RecoveredData(c: Crypto, eKey: seq<byte>, payload: seq<byte>): (data: seq<byte>)
    requires |payload| == PayloadLength
    ensures |data| == 8
  {
    Xor(payload[16..24], Pad(c, eKey, payload[..16]))
  }

  /** A payload is authentic when its last four bytes are the signature of the
      price it carries and its IV. */
  predicate Authentic(c: Crypto, eKey: seq<byte>, iKey: seq<byte>, payload: seq<byte>)
    requires |payload| == PayloadLength
  {
    Signature(c, iKey, RecoveredData(c, eKey, payload), payload[..16]) == payload[24..]
  }

  /** The 28-byte binary token IV ++ (pad XOR data) ++ signature. */
  function Payload(c: Crypto, eKey: seq<byte>, iKey: seq<byte>, seed: seq<byte>, data: Micros): (payload: seq<byte>)
    ensures |payload| == PayloadLength
    ensures payload[..16] == c.md5(seed)
    ensures RecoveredData(c, eKey, payload) == data
    ensures Authentic(c, eKey, iKey, payload)
  {
    var iv := c.md5(seed);
    var pad := Pad(c, eKey, iv);
    var payload := iv + Xor(pad, data) + Signature(c, iKey, data, iv);
    assert payload[..16] == iv && payload[16..24] == Xor(pad, data);
    XorInvolution(pad, data);
    assert Xor(Xor(pad, data), pad) == Xor(pad, Xor(pad, data));
    payload
  }

  /** `Encrypt`: never fails, and yields 38 alphabet characters (so no `=`)
      with no stray trailing bits that decode to the payload of the seed and
      price: by `Base64Url.EncodeDecode`, the one canonical encoding of it. */
  function Encrypt(c: Crypto, eKey: seq<byte>, iKey: seq<byte>, seed: seq<byte>, data: Micros): (r: Result<seq<byte>>)
    ensures r.err == Nil
    ensures |r.value| == TokenLength && Base64Url.AllUrlSafe(r.value)
    ensures Base64Url.IsCanonical(r.value)
    ensures Base64Url.Decode(r.value) == Base64Url.Decoded(Payload(c, eKey, iKey, seed, data))
  {
    var payload := Payload(c, eKey, iKey, seed, data);
    Base64Url.DecodeEncode(payload);
    Base64Url.EncodeCanonical(payload);
    Result(Base64Url.Encode(payload), Nil)
  }

  /** The second half of `DecryptRaw`: split the decoded buffer, unmask the
      price as a `uint64`, and accept it only if the recomputed signature
      matches. It agrees with the byte-wise reading of the payload. */
  function Open(c: Crypto, eKey: seq<byte>, iKey: seq<byte>, decoded: seq<byte>): (r: Result<uint64>)
    requires |decoded| == PayloadLength
    ensures r.err == Nil <==> Authentic(c, eKey, iKey, decoded)
    ensures r.err == Nil ==> PutUint64(r.value) == RecoveredData(c, eKey, decoded)
    ensures r.err != Nil ==> r == Result(0, ErrWrongSignature)
  {
    var iv := decoded[0..16];
    var p := BigEndianUint64(decoded[16..24]);
    var signature := BigEndianUint32(decoded[24..28]);
    var pad := BigEndianUint64(Pad(c, eKey, iv));
    var priceInMicros := pad ^ p;
    var priceMicro := PutUint64(priceInMicros);
    var confirmation := Signature(c, iKey, priceMicro, iv);
    BigEndianUint64Xor(decoded[16..24], Pad(c, eKey, iv));
    assert decoded[16..24][..8] == decoded[16..24];
    assert priceInMicros == BigEndianUint64(RecoveredData(c, eKey, decoded));
    PutUint64OfBigEndian(RecoveredData(c, eKey, decoded));
    assert priceMicro == RecoveredData(c, eKey, decoded);
    BigEndianUint32Injective(confirmation, decoded[24..28]);
    assert decoded[24..28] == decoded[24..] && confirmation[..4] == confirmation && decoded[24..28][..4] == decoded[24..28];
    if BigEndianUint32(confirmation) != signature then Result(0, ErrWrongSignature)
    else Result(priceInMicros, Nil)
  }

  /** `DecryptRaw`: trim trailing `=`, demand 38 characters, base64-decode,
      then open the payload. Every error comes with micros 0; the size guard
      fires exactly on the wrong trimmed length, a decode error exactly on a
      byte outside the alphabet, and success exactly on an authentic payload. */
  function DecryptRaw(c: Crypto, eKey: seq<byte>, iKey: seq<byte>, token: seq<byte>): (r: Result<uint64>)
    ensures r.err != Nil ==> r.value == 0
    ensures var trimmed := TrimRight(token, PadChar);
      r.err == ErrWrongSize <==> |trimmed| != TokenLength
    ensures var trimmed := TrimRight(token, PadChar);
      r.err.CorruptInputError? <==> |trimmed| == TokenLength && !Base64Url.AllUrlSafe(trimmed)
    ensures var trimmed := TrimRight(token, PadChar);
      r.err.CorruptInputError? ==> r.err == CorruptInputError(Base64Url.Decode(trimmed).offset)
    ensures var trimmed := TrimRight(token, PadChar);
      r.err.CorruptInputError? ==> Base64Url.IsFirstError(trimmed, r.err.offset)
    ensures var trimmed := TrimRight(token, PadChar);
      r.err == Nil ==>
        && |trimmed| == TokenLength
        && Base64Url.Decode(trimmed).Decoded?
        && Authentic(c, eKey, iKey, Base64Url.Decode(trimmed).bytes)
        && PutUint64(r.value) == RecoveredData(c, eKey, Base64Url.Decode(trimmed).bytes)
    ensures var trimmed := TrimRight(token, PadChar);
      (|trimmed| == TokenLength && Base64Url.Decode(trimmed).Decoded?
        && !Authentic(c, eKey, iKey, Base64Url.Decode(trimmed).bytes)) ==> r.err == ErrWrongSignature
    ensures var trimmed := TrimRight(token, PadChar);
      (|trimmed| == TokenLength && Base64Url.Decode(trimmed).Decoded?
        && Authentic(c, eKey, iKey, Base64Url.Decode(trimmed).bytes)) ==> r.err == Nil
  {
    var trimmed := TrimRight(token, PadChar);
    if |trimmed| != TokenLength then Result(0, ErrWrongSize)
    else
      match Base64Url.Decode(trimmed)
      case CorruptInputError(offset) => Result(0, CorruptInputError(offset))
      case Decoded(decoded) => Open(c, eKey, iKey, decoded)
  }

  /** `Decrypt`'s float64 result `float64(micros) / scaleFactor`, kept as the
      exact quotient rather than evaluated. */
  datatype Price = Price(micros: uint64, scaleFactor: ScaleFactor)

  /** `Decrypt`: the micros of `DecryptRaw` over the scale factor, together
      with its error; every error comes with price 0. */
  function Decrypt(c: Crypto, eKey: seq<byte>, iKey: seq<byte>, scaleFactor: ScaleFactor, token: seq<byte>): (r: Result<Price>)
    ensures r.err == DecryptRaw(c, eKey, iKey, token).err
    ensures r.err != Nil ==> r.value.micros == 0
    ensures r.err == Nil ==> PutUint64(r.value.micros) == RecoveredData(c, eKey, Base64Url.Decode(TrimRight(token, PadChar)).bytes)
    ensures r.value.scaleFactor == scaleFactor
  {
    var raw := DecryptRaw(c, eKey, iKey, token);
    Result(Price(raw.value, scaleFactor), raw.err)
  }

  /** Decrypting a token made with the same keys gives back the big-endian
      value of the encrypted eight bytes, with no error. */
  lemma RoundTrip(c: Crypto, eKey: seq<byte>, iKey: seq<byte>, seed: seq<byte>, data: Micros)
    ensures DecryptRaw(c, eKey, iKey, Encrypt(c, eKey, iKey, seed, data).value) == Result(BigEndianUint64(data), Nil)
  {
    var token := Encrypt(c, eKey, iKey, seed, data).value;
    assert TrimRight(token, PadChar) == token by {
      assert token[|token| - 1] != PadChar;
    }
    var r := DecryptRaw(c, eKey, iKey, token);
    assert PutUint64(r.value) == data;
  }

  /** The token `Encrypt` returns is the only text without stray trailing bits
      that decodes to the payload. */
  lemma EncryptTokenUnique(c: Crypto, eKey: seq<byte>, iKey: seq<byte>, seed: seq<byte>, data: Micros, token: seq<byte>)
    requires Base64Url.Decode(token) == Base64Url.Decoded(Payload(c, eKey, iKey, seed, data))
    requires Base64Url.IsCanonical(token)
    ensures token == Encrypt(c, eKey, iKey, seed, data).value
  {
    Base64Url.EncodeDecode(token, Payload(c, eKey, iKey, seed, data));
  }

  /** Trailing `=` bytes never reach the trimmed text. */
  lemma {:induction false} TrimRightPadding(s: seq<byte>, cut: byte, k: nat)
    ensures TrimRight(s + seq(k, _ => cut), cut) == TrimRight(s, cut)
    decreases k
  {
    if k > 0 {
      var padded := s + seq(k, _ => cut);
      assert padded[|padded| - 1] == cut;
      assert padded[..|padded| - 1] == s + seq(k - 1, _ => cut);
      TrimRightPadding(s, cut, k - 1);
    } else {
      assert s + seq(k, _ => cut) == s;
    }
  }

  /** Appending any number of `=` to a token does not change what it decrypts to. */
  lemma PaddingTolerance(c: Crypto, eKey: seq<byte>, iKey: seq<byte>, token: seq<byte>, k: nat)
    ensures DecryptRaw(c, eKey, iKey, token + seq(k, _ => PadChar)) == DecryptRaw(c, eKey, iKey, token)
  {
    TrimRightPadding(token, PadChar, k);
  }

  /** A token that decodes to an authentic payload with its first 24 bytes
      kept and its signature bytes altered is rejected, with micros 0. */
  lemma SignatureTamperRejected(c: Crypto, eKey: seq<byte>, iKey: seq<byte>, payload: seq<byte>, token: seq<byte>, forged: seq<byte>)
    requires |payload| == PayloadLength && Authentic(c, eKey, iKey, payload)
    requires |TrimRight(token, PadChar)| == TokenLength
    requires Base64Url.Decode(TrimRight(token, PadChar)) == Base64Url.Decoded(forged)
    requires forged[..24] == payload[..24] && forged[24..] != payload[24..]
    ensures DecryptRaw(c, eKey, iKey, token) == Result(0, ErrWrongSignature)
  {
    assert |forged| == PayloadLength;
    assert RecoveredData(c, eKey, forged) == RecoveredData(c, eKey, payload) by {
      assert forged[..16] == payload[..16] && forged[16..24] == payload[16..24];
    }
    assert !Authentic(c, eKey, iKey, forged) by {
      assert forged[..16] == payload[..16];
    }
  }

  /** Tokens are malleable in their last character: the base64 decoder
      ignores its low four bits, so each token has sixteen spellings that all
      decrypt alike. */
  lemma LastCharacterMalleable(c: Crypto, eKey: seq<byte>, iKey: seq<byte>, token: seq<byte>, ch: byte)
    requires |token| == TokenLength
    requires Base64Url.IsUrlSafeChar(token[TokenLength - 1]) && Base64Url.IsUrlSafeChar(ch)
    requires Base64Url.DecodeMap(ch) & 0x30 == Base64Url.DecodeMap(token[TokenLength - 1]) & 0x30
    ensures DecryptRaw(c, eKey, iKey, token[..TokenLength - 1] + [ch]) == DecryptRaw(c, eKey, iKey, token)
  {
    var other := token[..TokenLength - 1] + [ch];
    assert TrimRight(token, PadChar) == token by {
      assert token[|token| - 1] != PadChar;
    }
    assert TrimRight(other, PadChar) == other by {
      assert other[|other| - 1] == ch;
    }
    Base64Url.DecodeIgnoresUnusedBits(token, ch);
  }

  /** The pad depends on the IV and the encryption key only: two payloads that
      share an IV share the pad, so the XOR of the two recovered prices is the
      XOR of the two ciphertexts, whatever their signatures. */
  lemma PadReuse(c: Crypto, eKey: seq<byte>, p1: seq<byte>, p2: seq<byte>)
    requires |p1| == PayloadLength && |p2| == PayloadLength
    requires p1[..16] == p2[..16]
    ensures Xor(RecoveredData(c, eKey, p1), RecoveredData(c, eKey, p2)) == Xor(p1[16..24], p2[16..24])
  {
    var pad := Pad(c, eKey, p1[..16]);
    forall i | 0 <= i < 8
      ensures (p1[16..24][i] ^ pad[i]) ^ (p2[16..24][i] ^ pad[i]) == p1[16..24][i] ^ p2[16..24][i]
    {
      XorCancel(pad[i], p1[16..24][i], p2[16..24][i]);
    }
  }

  lemma XorCancel(x: byte, a: byte, b: byte)
    ensures (a ^ x) ^ (b ^ x) == a ^ b
  {
  }
}

# DoubleClick price encryption, modelled in Dafny

This project models the Google Ad Exchange (DoubleClick) winning-price
encryption that the `pricers` Go library implements twice:

- in `doubleclick/doubleclick_pricer.go`, where both sides use the pricer's two keyed HMAC hashes;
- in `pricers/doubleclick_pricer.go`, where `DecryptRaw` builds fresh HMACs from the raw key bytes.

It also models the two XOR formulations in `naaa.go`.

The token layout is:

- IV = MD5(seed);
- pad = HMAC(encryption key, IV)[0:8];
- ciphertext = pad XOR price bytes;
- signature = HMAC(integrity key, price bytes ++ IV)[0:4];
- token = unpadded URL-safe base64 of IV ++ ciphertext ++ signature, which is 38 characters.

`DecryptRaw` does the following in order:

1. Trims trailing `=`.
2. Demands exactly 38 bytes.
3. Decodes the base64.
4. Unmasks the price as a `uint64`.
5. Recomputes the signature and rejects a mismatch.

Every error comes with micros 0.

Files:

- `bytes.dfy` (`Bytes`): byte, `uint32` and `uint64` as bit-vectors. It holds the byte-wise XOR and the big-endian `Uint64`, `Uint32` and `PutUint64` of `encoding/binary`.
- `base64url.dfy` (`Base64Url`): `base64.RawURLEncoding` on bytes, processed quantum by quantum as Go's encoder and decoder do.
  - The decoder is non-strict: unused trailing bits are ignored.
  - A character outside the alphabet gives `CorruptInputError` at its offset.
  - A lone final character gives `CorruptInputError` at the last offset.
- `price_cipher.dfy` (`PriceCipher`): the transform shared by both pricers. The key for each role is an explicit parameter.
  - MD5 and HMAC are the two fields of a `Crypto` value. They are arbitrary functions whose only known facts are their output lengths: 16 bytes for MD5 and at least 8 bytes for HMAC.
  - Every property is therefore proved for every choice of hash.
- `doubleclick_pricer.dfy` (`DoubleClick`): the `doubleclick` package's pricer.
- `pricers_pricer.dfy` (`Pricers`): the `pricers` package's pricer. Its round trip needs the raw key bytes to be the bytes the hashes were keyed with. A concrete counterexample shows that this requirement cannot be dropped.
- `naaa.dfy` (`Naaa`): `Square`, `Square2` and `maind`.

Go's `(value, error)` pairs are `PriceCipher.Result` values. The error is one of:

- `Nil`;
- `ErrWrongSize`;
- `ErrWrongSignature`;
- the decoder's `CorruptInputError(offset)`.

## Model

| member | source | states |
|---|---|---|
| Bytes.Xor | doubleclick/doubleclick_pricer.go:105-107 | the masked bytes: byte `i` of the result is byte `i` of the pad XOR byte `i` of the price; `XorInvolution` shows that masking twice with the same pad gives the price back |
| Bytes.BigEndianUint64 | doubleclick/doubleclick_pricer.go:141 | byte `i` of the word, counted from the most significant end, is `b[i]`, for `i` in 0..7; `PutUint64OfBigEndian` and `BigEndianUint64Xor` relate it to `PutUint64` and to the byte-wise XOR |
| Bytes.BigEndianUint32 | doubleclick/doubleclick_pricer.go:142 | byte `i` of the word, counted from the most significant end, is `b[i]`, for `i` in 0..3; `BigEndianUint32Injective` turns the word comparison into a byte comparison |
| Bytes.PutUint64 | doubleclick/doubleclick_pricer.go:149-150 | writing a `uint64` big-endian gives eight bytes that `BigEndian.Uint64` reads back as the same value |
| Bytes.PutUint64OfBigEndian | pricers/doubleclick_pricer.go:136-137 | re-encoding the big-endian value of eight bytes gives those bytes back |
| Bytes.BigEndianUint64Injective | doubleclick/doubleclick_pricer.go:141 | two byte strings have the same `BigEndian.Uint64` exactly when their first eight bytes agree |
| Bytes.BigEndianUint32Injective | doubleclick/doubleclick_pricer.go:153-156 | comparing the two signatures as `uint32` is the same as comparing their four bytes, in both directions |
| Bytes.BigEndianUint64Xor | doubleclick/doubleclick_pricer.go:145-148 | XOR of the two big-endian words is the big-endian word of the byte-wise XOR of their first eight bytes |
| Bytes.XorInvolution | doubleclick/doubleclick_pricer.go:105-107 | masking with the pad twice gives the price bytes back |
| Base64Url.EncodedLen | doubleclick/doubleclick_pricer.go:110 | the fewest six-bit characters that hold `n` bytes, and `DecodedLen` of it is `n` again |
| Base64Url.DecodedLen | doubleclick/doubleclick_pricer.go:133 | the number of whole bytes that `n` six-bit characters hold |
| Base64Url.EncodedLenOfDecodedLen | doubleclick/doubleclick_pricer.go:130-133 | every length that is not 1 mod 4 (38 among them) is the encoded length of its decoded length, so 38 characters carry exactly 28 bytes |
| Base64Url.Encode | doubleclick/doubleclick_pricer.go:110 | unpadded URL-safe encoding yields `EncodedLen` characters, all from the URL-safe alphabet |
| Base64Url.Decode | doubleclick/doubleclick_pricer.go:133-136 | decoding succeeds exactly when every byte is in the alphabet and the length is not 1 mod 4; it yields `DecodedLen` bytes; on failure the offset is the first invalid position |
| Base64Url.DecodeEncode | doubleclick/doubleclick_pricer.go:110 | decoding the encoding of any byte string gives it back |
| Base64Url.EncodeDecode | pricers/doubleclick_pricer.go:119 | a text that decodes and has zero unused trailing bits is the encoding of what it decodes to |
| Base64Url.EncodeCanonical | doubleclick/doubleclick_pricer.go:110 | every encoding has the unused low bits of its last character clear, so with `EncodeDecode` it is the only such text that decodes to its input |
| Base64Url.DecodeIgnoresUnusedBits | doubleclick/doubleclick_pricer.go:133 | in a text ending in a two-character quantum, changing the low four bits of the last character's value leaves the decoding unchanged |
| PriceCipher.TrimRight | doubleclick/doubleclick_pricer.go:129 | the result is a prefix of the token that does not end in `=`, and only `=` follows it |
| PriceCipher.TrimRightPadding | pricers/doubleclick_pricer.go:115 | appending any number of `=` does not change the trimmed text |
| PriceCipher.Pad | doubleclick/doubleclick_pricer.go:99 | the pad has eight bytes and depends only on the encryption key and the IV; `PadReuse` states that dependency and `RoundTrip` shows the decrypting side recomputes it |
| PriceCipher.Signature | doubleclick/doubleclick_pricer.go:102 | the signature has four bytes; `Payload` shows it verifies on the encrypting side and `SignatureTamperRejected` that a different one is rejected |
| PriceCipher.Payload | doubleclick/doubleclick_pricer.go:96-107 | the 28-byte payload starts with MD5(seed); unmasking its ciphertext with the pad of its IV gives the price bytes; its signature verifies |
| PriceCipher.Encrypt | doubleclick/doubleclick_pricer.go:86-111 | the error is always nil; the token has 38 URL-safe characters (so no `=`) and is the canonical encoding of the payload: it decodes to the payload and its unused trailing bits are clear, which by `EncodeDecode` leaves exactly one such token |
| PriceCipher.EncryptTokenUnique | doubleclick/doubleclick_pricer.go:110 | a text that decodes to the payload and has its unused trailing bits clear is exactly the token `Encrypt` returns |
| PriceCipher.Open | doubleclick/doubleclick_pricer.go:139-160 | the `uint64` unmasking accepts exactly the authentic payloads; when accepted, the result re-encodes to ciphertext XOR pad; otherwise the result is (0, `ErrWrongSignature`) |
| PriceCipher.DecryptRaw | doubleclick/doubleclick_pricer.go:124-161 | every error carries 0; `ErrWrongSize` exactly when the trimmed length is not 38; a decode error exactly for a 38-byte text with a byte outside the alphabet, and it is the decoder's own error, at the first such offset; nil exactly for an authentic payload, whose price is returned; an inauthentic payload gives `ErrWrongSignature` |
| PriceCipher.Decrypt | doubleclick/doubleclick_pricer.go:114-119 | passes on `DecryptRaw`'s error; the micros are 0 with any error and the decrypted value with nil; the scale factor is the pricer's |
| PriceCipher.RoundTrip | doubleclick/doubleclick_pricer.go:86-161 | decrypting a token made with the same keys gives the big-endian value of the encrypted bytes and a nil error |
| PriceCipher.PaddingTolerance | doubleclick/doubleclick_pricer.go:127-130 | a token followed by any number of `=` decrypts exactly as the token alone |
| PriceCipher.SignatureTamperRejected | doubleclick/doubleclick_pricer.go:152-158 | a token decoding to an authentic payload with the same first 24 bytes and different signature bytes gives (0, `ErrWrongSignature`) |
| PriceCipher.LastCharacterMalleable | pricers/doubleclick_pricer.go:115-122 | changing the low four bits of a 38-byte token's last character leaves the decryption result unchanged |
| PriceCipher.PadReuse | pricers/doubleclick_pricer.go:126-135 | the pad depends only on the IV and the key: two payloads with the same IV recover prices whose XOR equals the XOR of their ciphertexts |
| DoubleClick.Encrypt | doubleclick/doubleclick_pricer.go:86-111 | the error is nil; the token has 38 URL-safe characters and is the canonical encoding of MD5(seed) ++ (pad XOR data) ++ signature, with the pricer's keys |
| DoubleClick.DecryptRaw | doubleclick/doubleclick_pricer.go:124-161 | every error carries 0; `ErrWrongSize` exactly when the trimmed length is not 38; a decode error exactly when the 38-byte text does not decode, and it is the decoder's own error with its offset; nil exactly for an authentic payload, returning the price unmasked with the pricer's encryption key; an inauthentic payload gives (0, `ErrWrongSignature`) |
| DoubleClick.Decrypt | doubleclick/doubleclick_pricer.go:114-119 | same error as `DecryptRaw`, micros 0 with any error, and the pricer's scale factor |
| DoubleClick.RoundTrip | doubleclick/doubleclick_pricer.go:96-160 | `Encrypt` then `DecryptRaw` or `Decrypt` returns the encrypted value with no error |
| Pricers.Encrypt | pricers/doubleclick_pricer.go:72-97 | the error is nil; the token has 38 URL-safe characters and is the canonical encoding of MD5(seed) ++ (pad XOR data) ++ signature, with the hashed keys |
| Pricers.DecryptRaw | pricers/doubleclick_pricer.go:110-149 | every error carries 0; `ErrWrongSize` exactly when the trimmed length is not 38; a decode error exactly when the 38-byte text does not decode, and it is the decoder's own error with its offset; nil exactly for a payload authentic under the raw keys, returning the price unmasked with the raw encryption key; an inauthentic payload gives (0, `ErrWrongSignature`) |
| Pricers.Decrypt | pricers/doubleclick_pricer.go:100-105 | same error as `DecryptRaw`, micros 0 with any error, and the pricer's scale factor |
| Pricers.RoundTrip | pricers/doubleclick_pricer.go:43-58 | when the raw key bytes are the ones the hashes were keyed with, `Encrypt` then `DecryptRaw` or `Decrypt` returns the encrypted value with no error |
| Pricers.SkewedKeysBreakRoundTrip | pricers/doubleclick_pricer.go:132-146 | for that pricer and an HMAC that echoes the key, a token from `Encrypt` is accepted with a nil error but decrypts to a different value |
| Naaa.Square | naaa.go:5-10 | re-encoding the result gives the byte-wise XOR of the first eight bytes of the two arguments |
| Naaa.Square2 | naaa.go:12-19 | the byte-wise loop computes the same value as `Square`, and its result re-encodes to the byte-wise XOR |
| Naaa.SquareSymmetric | naaa.go:5-10 | swapping the arguments gives the same value |
| Naaa.SquareSelf | naaa.go:8 | unmasking a value with itself gives 0 |
| Naaa.SquareReadsEightBytes | naaa.go:6-7 | the result depends only on the first eight bytes of each argument |
| Naaa.Maind | naaa.go:21-26 | on the identical pad and price `1..8`, both formulations give 0 |

## Left out

- Key handling is not modelled. This covers `NewDoubleClickPricer`, `CreateHmac`, `keyBytes` and the key-decoding modes, because the `helpers` package and the pricers' key helpers are not part of this model. Each pricer holds the bytes its hashes are keyed with; `Pricers.KeysAgree` states the condition that the constructor is expected to establish.
- `helpers.HmacSum(h, a, b)`, the `pricers` package's `HmacSum(h, m)` and `HmacSum2(key, m)` are modelled as HMAC of the message (for `helpers.HmacSum`, of the concatenation `a ++ b`) under the given key. Their bodies are not part of this model.
- Hash internals are not modelled. MD5 and HMAC are arbitrary functions of the stated output lengths. Properties that need collision resistance are therefore out of reach: detection of tampering in the IV or ciphertext region, and separation of the two keys. Tampering is proved only for the signature region.
- `ApplyScaleFactor` and the float price are not modelled. `Encrypt` takes the eight price bytes directly, and the seed is taken as its bytes.
- PriceCipher.Decrypt: returns the micros together with the scale factor (`Price`) instead of the rounded float64 quotient, because floating point is not modelled. Scale factors that are zero, negative or NaN are excluded by the `ScaleFactor` type.
- The caller's scratch buffer is not modelled. The decoded bytes are a value. Go panics when decoding writes past the end of a buffer shorter than 28 bytes.
- Base64Url.Decode: Go's base64 decoder skips `\r` and `\n` inside the text, and `DecryptRaw` ignores the byte count it returns. For a 38-byte token with `k` such bytes, Go has two outcomes. When `k` is 1 mod 4, the remaining characters end in a lone character and Go reports `CorruptInputError(37)`. Otherwise Go decodes fewer than 28 bytes, and the signature check reads bytes of the buffer past the decoded count. Those bytes are stale or zeroed: zeros in `Decrypt`; in `DecryptRaw`, the caller's old contents, except where Go's word-sized stores wrote zeros past the decoded count. The model's decoder treats `\r` and `\n` as invalid. It reports `CorruptInputError` at the first of them in both cases, so for a single `\n` at offset 5 the model gives offset 5 where Go gives 37.
- The signature comparison is a plain `uint32` comparison, as in the source. Timing is not modelled.
- Concurrency is not modelled. That includes the mutable state of the shared `hash.Hash` values.
- Debug printing in the `doubleclick` constructor is not modelled.
- The text of the Go error messages is not modelled.
- Benchmarks and tests are not modelled.

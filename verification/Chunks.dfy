/** Decoding one dat block (src/format/chunk.rs), over given decompression,
    decryption and checksum functions. */
module Chunks {
  import opened Wrappers
  import opened Bytes
  import opened Checksums

  datatype AesKey = AesKey(bytes: seq<byte>)

  /** The library routines: zlib inflation, AES-128-CFB decryption with a zero
      IV, the block checksum, and crc32. */
  datatype Codec = Codec(
    zlib: seq<byte> -> Stream,
    decrypt: (AesKey, seq<byte>) -> seq<byte>,
    checksum: seq<byte> -> u32,
    crc32: seq<byte> -> u32)

  /** Reading stops one byte past `BLOCK_SIZE`, so a longer stream is refused
      as such even if it is broken further on. */
  function Inflate(c: Codec, z: seq<byte>): (r: Result<seq<byte>, FormatError>)
    ensures r.Ok? <==> c.zlib(z).whole && |c.zlib(z).bytes| <= BLOCK_SIZE
    ensures r.Ok? ==> r.value == c.zlib(z).bytes
    ensures r == Err(Zlib) <==> !c.zlib(z).whole && |c.zlib(z).bytes| <= BLOCK_SIZE
  {
    var stream := c.zlib(z);
    if |stream.bytes| > BLOCK_SIZE then Err(Malformed("block inflates past BLOCK_SIZE"))
    else if !stream.whole then Err(Zlib)
    else Ok(stream.bytes)
  }

  function DecodeSealed(c: Codec, raw: seq<byte>, key: AesKey): Result<seq<byte>, FormatError> {
    var encryptedSize :- U32At(raw, 0);
    var decompressedSize :- U32At(raw, 4);
    if decompressedSize > BLOCK_SIZE then Err(Malformed("decompressed size too large"))
    else if encryptedSize != |raw| - 8 then Err(Malformed("encrypted size"))
    else
      var out :- Inflate(c, c.decrypt(key, raw[8..]));
      if |out| != decompressedSize then Err(Malformed("inflated size")) else Ok(out)
  }

  /** `decode`: `key` is required for the encrypted modes. */
  function Decode(c: Codec, mode: Mode, raw: seq<byte>, key: Option<AesKey>): Result<seq<byte>, FormatError> {
    match mode
    case Plain => Ok(raw)
    case Compressed => Inflate(c, raw)
    case CompressedEncrypted =>
      if key.None? then Err(Malformed("encrypted block but no depot key")) else DecodeSealed(c, raw, key.value)
    case Encrypted =>
      if key.None? then Err(Malformed("encrypted block but no depot key")) else Ok(c.decrypt(key.value, raw))
  }

  /** `decode_owned`: reuses the stored bytes where the length cannot change. */
  function DecodeOwned(c: Codec, mode: Mode, raw: seq<byte>, key: Option<AesKey>): Result<seq<byte>, FormatError> {
    match mode
    case Plain => Ok(raw)
    case Encrypted =>
      if key.None? then Err(Malformed("encrypted block but no depot key")) else Ok(c.decrypt(key.value, raw))
    case _ => Decode(c, mode, raw, key)
  }

  function DecodeVerified(c: Codec, mode: Mode, raw: seq<byte>, key: Option<AesKey>, expected: u32)
    : Result<seq<byte>, FormatError>
  {
    var out :- Decode(c, mode, raw, key);
    if c.checksum(out) != expected then Err(Malformed("checksum")) else Ok(out)
  }

  /** What it means for a stored block to decode to `out`: a sealed block is a
      header of its two sizes followed by the encrypted zlib stream. */
  ghost predicate DecodesTo(c: Codec, mode: Mode, raw: seq<byte>, key: Option<AesKey>, out: seq<byte>) {
    match mode
    case Plain => out == raw
    case Compressed => c.zlib(raw) == Stream(out, true) && |out| <= BLOCK_SIZE
    case Encrypted => key.Some? && out == c.decrypt(key.value, raw)
    case CompressedEncrypted =>
      && key.Some? && 8 <= |raw| < U32_LIMIT + 8 && |out| <= BLOCK_SIZE
      && Occurs(raw, 0, ToLe(|raw| - 8, 4) + ToLe(|out|, 4))
      && c.zlib(c.decrypt(key.value, raw[8..])) == Stream(out, true)
  }

  /** Both decoders produce exactly that, and fail exactly when no output
      qualifies. */
  lemma DecodeMeaning(c: Codec, mode: Mode, raw: seq<byte>, key: Option<AesKey>)
    ensures DecodeOwned(c, mode, raw, key) == Decode(c, mode, raw, key)
    ensures forall out :: Decode(c, mode, raw, key) == Ok(out) <==> DecodesTo(c, mode, raw, key, out)
  {
    hide ToLe, U32At, Occurs;
    if mode.CompressedEncrypted? && key.Some? {
      forall out ensures Decode(c, mode, raw, key) == Ok(out) <==> DecodesTo(c, mode, raw, key, out) {
        SealedMeaning(c, raw, key.value, out);
      }
    }
  }

  lemma SealedMeaning(c: Codec, raw: seq<byte>, key: AesKey, out: seq<byte>)
    ensures DecodeSealed(c, raw, key) == Ok(out) <==> DecodesTo(c, CompressedEncrypted, raw, Some(key), out)
  {
    hide ToLe, U32At, Occurs, Inflate;
    if |raw| >= 8 {
      InflateIs(c, c.decrypt(key, raw[8..]), out);
      U32Occurs(raw, 0, |raw| - 8);
      U32Occurs(raw, 4, |out|);
      OccursSplit(raw, 0, ToLe(|raw| - 8, 4), ToLe(|out|, 4));
    } else {
      ShortHeader(raw);
    }
  }

  lemma InflateIs(c: Codec, z: seq<byte>, out: seq<byte>)
    ensures Inflate(c, z) == Ok(out) <==> c.zlib(z) == Stream(out, true) && |out| <= BLOCK_SIZE
  {
  }

  lemma ShortHeader(raw: seq<byte>)
    requires |raw| < 8
    ensures U32At(raw, 4).Err?
  {
  }

  /** A verified block is one that decodes to bytes of the expected checksum. */
  lemma DecodeVerifiedMeaning(c: Codec, mode: Mode, raw: seq<byte>, key: Option<AesKey>, expected: u32, out: seq<byte>)
    ensures DecodeVerified(c, mode, raw, key, expected) == Ok(out)
       <==> DecodesTo(c, mode, raw, key, out) && c.checksum(out) == expected
  {
    hide Decode, DecodesTo;
    DecodeMeaning(c, mode, raw, key);
  }

  /** Only the encrypted modes look at the key, and they cannot do without. */
  lemma KeyMatters(c: Codec, mode: Mode, raw: seq<byte>, key: Option<AesKey>)
    ensures mode.IsEncrypted() ==> Decode(c, mode, raw, None).Err?
    ensures !mode.IsEncrypted() ==> Decode(c, mode, raw, key) == Decode(c, mode, raw, None)
  {
  }
}

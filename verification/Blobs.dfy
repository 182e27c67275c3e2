/** The "blob" key/value container (src/format/blob.rs). */
module Blobs {
  import opened Wrappers
  import opened Bytes

  const MAGIC_PLAIN: nat := 0x5001
  const MAGIC_COMPRESSED: nat := 0x4301

  /** One key/value pair, with where its value sits in the parsed buffer. */
  datatype Entry = Entry(key: seq<byte>, value: seq<byte>, valueOffset: nat)

  function EntryAt(data: seq<byte>, pos: nat): (r: Result<(Entry, nat), FormatError>)
    ensures r.Ok? ==> pos + 6 <= r.value.1 <= |data|
  {
    var klen :- U16At(data, pos);
    var vlen :- U32At(data, pos + 2);
    var start := pos + 6;
    if start + klen > |data| then Err(Malformed("blob key truncated"))
    else if start + klen + vlen > |data| then Err(Malformed("blob value truncated"))
    else
      var off := start + klen;
      Ok((Entry(data[start..off], data[off..off + vlen], off), off + vlen))
  }

  function EntriesFrom(data: seq<byte>, pos: nat, total: nat): Result<seq<Entry>, FormatError>
    decreases if pos <= |data| then |data| - pos + 1 else 0
  {
    if pos >= total then Ok([])
    else
      var (e, next) :- EntryAt(data, pos);
      var rest :- EntriesFrom(data, next, total);
      Ok([e] + rest)
  }

  function ParseEntries(data: seq<byte>): Result<seq<Entry>, FormatError> {
    var magic :- U16At(data, 0);
    if magic != MAGIC_PLAIN then Err(Malformed("bad blob magic"))
    else
      var total :- U32At(data, 2);
      if total > |data| then Err(Malformed("blob total_size exceeds buffer"))
      else EntriesFrom(data, 10, total)
  }

  function Prepend(before: seq<Entry>, r: Result<seq<Entry>, FormatError>): Result<seq<Entry>, FormatError> {
    match r
    case Ok(es) => Ok(before + es)
    case Err(e) => Err(e)
  }

  lemma PrependNothing(r: Result<seq<Entry>, FormatError>)
    ensures Prepend([], r) == r
  {
    if r.Ok? {
      assert [] + r.value == r.value;
    }
  }

  lemma PrependTwice(before: seq<Entry>, e: Entry, r: Result<seq<Entry>, FormatError>)
    ensures Prepend(before, Prepend([e], r)) == Prepend(before + [e], r)
  {
    if r.Ok? {
      assert before + ([e] + r.value) == (before + [e]) + r.value;
    }
  }

  lemma EntriesNext(data: seq<byte>, pos: nat, total: nat)
    ensures EntriesFrom(data, pos, total) ==
      if pos >= total then Ok([])
      else if EntryAt(data, pos).Err? then Err(EntryAt(data, pos).error)
      else Prepend([EntryAt(data, pos).value.0], EntriesFrom(data, EntryAt(data, pos).value.1, total))
  {
    hide EntryAt;
  }

  /** `Blob::parse` as written: a cursor loop pushing entries. */
  method Parse(data: seq<byte>) returns (r: Result<seq<Entry>, FormatError>)
    ensures r == ParseEntries(data)
  {
    var magic :- U16At(data, 0);
    if magic != MAGIC_PLAIN {
      return Err(Malformed("bad blob magic"));
    }
    var total :- U32At(data, 2);
    if total > |data| {
      return Err(Malformed("blob total_size exceeds buffer"));
    }
    hide EntryAt, EntriesFrom;
    var pos: nat := 10;
    var entries: seq<Entry> := [];
    PrependNothing(EntriesFrom(data, 10, total));
    while pos < total
      invariant Prepend(entries, EntriesFrom(data, pos, total)) == EntriesFrom(data, 10, total)
      decreases total - pos
    {
      EntriesNext(data, pos, total);
      var step :- EntryAt(data, pos);
      var (e, next) := step;
      PrependTwice(entries, e, EntriesFrom(data, next, total));
      entries := entries + [e];
      pos := next;
    }
    EntriesNext(data, pos, total);
    assert entries + [] == entries;
    r := Ok(entries);
  }

  // ---- the documented layout ---------------------------------------------

  function EncodeEntry(key: seq<byte>, value: seq<byte>): (e: seq<byte>)
    ensures |e| == 6 + |key| + |value|
  {
    ToLe(|key|, 2) + (ToLe(|value|, 4) + (key + value))
  }

  ghost predicate EntryFits(e: Entry) {
    |e.key| < U16_LIMIT && |e.value| < U32_LIMIT
  }

  /** `e` is stored at `pos`, length prefixes and all. */
  ghost predicate StoredAt(data: seq<byte>, pos: nat, e: Entry) {
    EntryFits(e) && Occurs(data, pos, EncodeEntry(e.key, e.value)) && e.valueOffset == pos + 6 + |e.key|
  }

  /** The entries follow each other without gaps from `pos`; each starts below
      `total`, and the last one reaches it. */
  ghost predicate Tiles(data: seq<byte>, es: seq<Entry>, pos: nat, total: nat) {
    if es == [] then pos >= total
    else
      && pos < total && StoredAt(data, pos, es[0])
      && Tiles(data, es[1..], pos + 6 + |es[0].key| + |es[0].value|, total)
  }

  lemma EntrySound(data: seq<byte>, pos: nat)
    requires EntryAt(data, pos).Ok?
    ensures var (e, next) := EntryAt(data, pos).value;
      StoredAt(data, pos, e) && next == pos + 6 + |e.key| + |e.value|
  {
    var (e, next) := EntryAt(data, pos).value;
    assert Occurs(data, pos + 6, e.key) && Occurs(data, pos + 6 + |e.key|, e.value);
    hide ToLe, U16At, U32At, Occurs;
    U16Occurs(data, pos, |e.key|);
    U32Occurs(data, pos + 2, |e.value|);
    OccursSplit(data, pos + 6, e.key, e.value);
    OccursSplit(data, pos + 2, ToLe(|e.value|, 4), e.key + e.value);
    OccursSplit(data, pos, ToLe(|e.key|, 2), ToLe(|e.value|, 4) + (e.key + e.value));
  }

  lemma EntryComplete(data: seq<byte>, pos: nat, e: Entry)
    requires StoredAt(data, pos, e)
    ensures EntryAt(data, pos) == Ok((e, pos + 6 + |e.key| + |e.value|))
  {
    OccursSplit(data, pos, ToLe(|e.key|, 2), ToLe(|e.value|, 4) + (e.key + e.value));
    OccursSplit(data, pos + 2, ToLe(|e.value|, 4), e.key + e.value);
    OccursSplit(data, pos + 6, e.key, e.value);
    U16Occurs(data, pos, |e.key|);
    U32Occurs(data, pos + 2, |e.value|);
    hide ToLe, U16At, U32At;
  }

  lemma {:induction false} EntriesTile(data: seq<byte>, pos: nat, total: nat, es: seq<Entry>)
    ensures EntriesFrom(data, pos, total) == Ok(es) <==> Tiles(data, es, pos, total)
    decreases if pos <= |data| then |data| - pos + 1 else 0
  {
    hide EntryAt, StoredAt;
    if pos < total {
      if EntryAt(data, pos).Ok? {
        var (e, next) := EntryAt(data, pos).value;
        EntrySound(data, pos);
        if es != [] {
          EntriesTile(data, next, total, es[1..]);
          if StoredAt(data, pos, es[0]) {
            EntryComplete(data, pos, es[0]);
          }
          assert es == [es[0]] + es[1..];
        }
        if EntriesFrom(data, next, total).Ok? {
          assert ([e] + EntriesFrom(data, next, total).value)[1..] == EntriesFrom(data, next, total).value;
        }
      } else if es != [] && StoredAt(data, pos, es[0]) {
        EntryComplete(data, pos, es[0]);
      }
    }
  }

  /** The buffer starts with the magic, its total size is inside it, and its
      entries tile it from byte 10. */
  ghost predicate Tiled(data: seq<byte>, es: seq<Entry>) {
    && U16At(data, 0) == Ok(0x5001)
    && U32At(data, 2).Ok? && U32At(data, 2).value <= |data|
    && Tiles(data, es, 10, U32At(data, 2).value)
  }

  /** Exactly such buffers are accepted. */
  lemma ParseAcceptsTilings(data: seq<byte>, es: seq<Entry>)
    ensures ParseEntries(data) == Ok(es) <==> Tiled(data, es)
  {
    hide U16At, U32At, EntriesFrom, Tiles;
    if U32At(data, 2).Ok? {
      EntriesTile(data, 10, U32At(data, 2).value, es);
    }
  }

  /** Every accepted value is the slice of the buffer at its recorded offset. */
  lemma {:induction false} TiledValues(data: seq<byte>, es: seq<Entry>, pos: nat, total: nat, i: nat)
    requires Tiles(data, es, pos, total) && i < |es|
    ensures pos + 6 <= es[i].valueOffset && es[i].valueOffset + |es[i].value| <= |data|
    ensures data[es[i].valueOffset..es[i].valueOffset + |es[i].value|] == es[i].value
  {
    if i == 0 {
      EntryComplete(data, pos, es[0]);
    } else {
      TiledValues(data, es[1..], pos + 6 + |es[0].key| + |es[0].value|, total, i - 1);
    }
  }

  // ---- round trip --------------------------------------------------------

  function EncodeEntries(pairs: seq<(seq<byte>, seq<byte>)>): (e: seq<byte>) {
    if pairs == [] then [] else EncodeEntry(pairs[0].0, pairs[0].1) + EncodeEntries(pairs[1..])
  }

  function EncodeBlob(pairs: seq<(seq<byte>, seq<byte>)>, slack: u32): (e: seq<byte>) {
    ToLe(0x5001, 2) + (ToLe(10 + |EncodeEntries(pairs)|, 4) + (ToLe(slack, 4) + EncodeEntries(pairs)))
  }

  /** The entries of a list laid out from `pos`. */
  function Placed(pairs: seq<(seq<byte>, seq<byte>)>, pos: nat): seq<Entry> {
    if pairs == [] then []
    else [Entry(pairs[0].0, pairs[0].1, pos + 6 + |pairs[0].0|)]
         + Placed(pairs[1..], pos + 6 + |pairs[0].0| + |pairs[0].1|)
  }

  lemma {:induction false} PlacedTile(data: seq<byte>, pairs: seq<(seq<byte>, seq<byte>)>, pos: nat, total: nat)
    requires forall i :: 0 <= i < |pairs| ==> |pairs[i].0| < U16_LIMIT && |pairs[i].1| < U32_LIMIT
    requires Occurs(data, pos, EncodeEntries(pairs)) && total == pos + |EncodeEntries(pairs)|
    ensures Tiles(data, Placed(pairs, pos), pos, total)
  {
    if pairs != [] {
      var e := EncodeEntry(pairs[0].0, pairs[0].1);
      OccursSplit(data, pos, e, EncodeEntries(pairs[1..]));
      PlacedTile(data, pairs[1..], pos + |e|, total);
      assert Placed(pairs, pos)[1..] == Placed(pairs[1..], pos + |e|);
    }
  }

  /** Parsing an encoded entry list returns it, whatever follows. */
  lemma EncodeThenParse(pairs: seq<(seq<byte>, seq<byte>)>, slack: u32, rest: seq<byte>)
    requires forall i :: 0 <= i < |pairs| ==> |pairs[i].0| < U16_LIMIT && |pairs[i].1| < U32_LIMIT
    requires 10 + |EncodeEntries(pairs)| < U32_LIMIT
    ensures ParseEntries(EncodeBlob(pairs, slack) + rest) == Ok(Placed(pairs, 10))
  {
    var data := EncodeBlob(pairs, slack) + rest;
    var body := EncodeEntries(pairs);
    var total := 10 + |body|;
    assert Occurs(data, 0, EncodeBlob(pairs, slack));
    hide ToLe, Occurs, EncodeEntries, Placed, U16At, U32At, Tiles, ParseEntries;
    OccursSplit(data, 0, ToLe(MAGIC_PLAIN, 2), ToLe(total, 4) + (ToLe(slack, 4) + body));
    OccursSplit(data, 2, ToLe(total, 4), ToLe(slack, 4) + body);
    OccursSplit(data, 6, ToLe(slack, 4), body);
    U16Occurs(data, 0, MAGIC_PLAIN);
    U32Occurs(data, 2, total);
    PlacedTile(data, pairs, 10, total);
    ParseAcceptsTilings(data, Placed(pairs, 10));
  }

  // ---- lookups -----------------------------------------------------------

  /** The first entry with a key. */
  function Lookup(es: seq<Entry>, key: seq<byte>): (r: Option<Entry>)
    ensures r.Some? ==> exists i :: 0 <= i < |es| && es[i] == r.value && es[i].key == key && forall j :: 0 <= j < i ==> es[j].key != key
    ensures r.None? ==> forall e :: e in es ==> e.key != key
  {
    if es == [] then None else if es[0].key == key then Some(es[0]) else Lookup(es[1..], key)
  }

  function Require(es: seq<Entry>, key: u32): Result<Entry, FormatError> {
    match Lookup(es, ToLe(key, 4))
    case None => Err(Malformed("blob is missing a key"))
    case Some(e) => Ok(e)
  }

  function RequireU32(es: seq<Entry>, key: u32): (r: Result<u32, FormatError>) {
    var e :- Require(es, key);
    if |e.value| != 4 then Err(Malformed("expected 4 bytes")) else U32At(e.value, 0)
  }

  function RequireU32OrU64(es: seq<Entry>, key: u32): (r: Result<u64, FormatError>) {
    var e :- Require(es, key);
    if |e.value| == 4 then U32At(e.value, 0)
    else if |e.value| == 8 then U64At(e.value, 0)
    else Err(Malformed("expected 4 or 8 bytes"))
  }

  /** `prev` is `None` for a root (previous version 0xffffffff). */
  datatype VersionMeta = VersionMeta(format: u32, ownCrc: u32, datCrc: u32, datSize: u64, prev: Option<(u32, u32)>)

  const FORMAT: u32 := 0
  const MANIFEST_FINGERPRINT: u32 := 2
  const MANIFEST: u32 := 3
  const CHECKSUMS: u32 := 4
  const DAT_CRC: u32 := 7
  const OWN_CRC: u32 := 10
  const PREV_VERSION: u32 := 11
  const PREV_CRC: u32 := 12
  const DAT_SIZE: u32 := 13

  function MetaOf(es: seq<Entry>): Result<VersionMeta, FormatError> {
    var prevVersion :- RequireU32(es, PREV_VERSION);
    var prevCrc :- RequireU32(es, PREV_CRC);
    var format :- RequireU32(es, FORMAT);
    var ownCrc :- RequireU32(es, OWN_CRC);
    var datCrc :- RequireU32(es, DAT_CRC);
    var datSize :- RequireU32OrU64(es, DAT_SIZE);
    Ok(VersionMeta(format, ownCrc, datCrc, datSize,
                   if prevVersion != 0xffff_ffff then Some((prevVersion, prevCrc)) else None))
  }

  /** Key `key` holds the four bytes of `v`. */
  ghost predicate HoldsU32(es: seq<Entry>, key: u32, v: u32) {
    Lookup(es, ToLe(key, 4)).Some? && Lookup(es, ToLe(key, 4)).value.value == ToLe(v, 4)
  }

  lemma RequiredU32(es: seq<Entry>, key: u32, v: u32)
    ensures RequireU32(es, key) == Ok(v) <==> HoldsU32(es, key, v)
  {
    hide ToLe, U32At, Lookup;
    var found := Lookup(es, ToLe(key, 4));
    if found.Some? {
      U32Occurs(found.value.value, 0, v);
      assert |found.value.value| == 4 ==> found.value.value[0..4] == found.value.value;
    }
  }

  /** Key `key` holds `v` in four or in eight bytes. */
  ghost predicate HoldsSize(es: seq<Entry>, key: u32, v: u64) {
    || (v < U32_LIMIT && HoldsU32(es, key, v))
    || (Lookup(es, ToLe(key, 4)).Some? && Lookup(es, ToLe(key, 4)).value.value == ToLe(v, 8))
  }

  lemma RequiredSize(es: seq<Entry>, key: u32, v: u64)
    ensures RequireU32OrU64(es, key) == Ok(v) <==> HoldsSize(es, key, v)
  {
    hide ToLe, U32At, U64At, Lookup;
    var found := Lookup(es, ToLe(key, 4));
    if found.Some? {
      var b := found.value.value;
      U32Occurs(b, 0, v);
      U64Occurs(b, 0, v);
      assert |b| == 4 ==> b[0..4] == b;
      assert |b| == 8 ==> b[0..8] == b;
    }
  }

  /** Which key every field comes from, and which previous version means a
      root. */
  ghost predicate HoldsMeta(es: seq<Entry>, m: VersionMeta) {
    && HoldsU32(es, 0, m.format) && HoldsU32(es, 10, m.ownCrc) && HoldsU32(es, 7, m.datCrc)
    && HoldsSize(es, 13, m.datSize)
    && match m.prev
       case Some(p) => p.0 != 0xffff_ffff && HoldsU32(es, 11, p.0) && HoldsU32(es, 12, p.1)
       case None => HoldsU32(es, 11, 0xffff_ffff) && exists crc: u32 :: HoldsU32(es, 12, crc)
  }

  lemma MetaMeaning(es: seq<Entry>, m: VersionMeta)
    ensures MetaOf(es) == Ok(m) <==> HoldsMeta(es, m)
  {
    hide RequireU32, RequireU32OrU64, HoldsU32, HoldsSize;
    RequiredSize(es, 13, m.datSize);
    RequiredU32(es, 0, m.format);
    RequiredU32(es, 10, m.ownCrc);
    RequiredU32(es, 7, m.datCrc);
    RequiredU32(es, 11, 0xffff_ffff);
    forall v: u32, key: u32 ensures RequireU32(es, key) == Ok(v) <==> HoldsU32(es, key, v) {
      RequiredU32(es, key, v);
    }
  }

  /** The compressed wrapper: magic, packed size with this header, plain size,
      two unused bytes, zlib stream. */
  function Wrap(z: seq<byte>, plain: nat, unused: seq<byte>): (e: seq<byte>) {
    ToLe(0x4301, 2) + (ToLe(|z| + 20, 8) + (ToLe(plain, 8) + (unused + z)))
  }

  /** Unwrapping inverts wrapping, and notices a wrong plain size. */
  lemma WrapThenDecompress(zlib: seq<byte> -> Stream, z: seq<byte>, plain: nat, unused: seq<byte>)
    requires |z| + 20 < U64_LIMIT && plain < U64_LIMIT && |unused| == 2
    ensures Decompress(zlib, Wrap(z, plain, unused)) ==
      if !zlib(z).whole then Err(Zlib)
      else if |zlib(z).bytes| == plain then Ok(zlib(z).bytes)
      else Err(Malformed("compressed blob size"))
  {
    var data := Wrap(z, plain, unused);
    assert Occurs(data, 0, data);
    assert |data| == 20 + |z|;
    var tail := unused + z;
    hide ToLe, U16At, U64At;
    OccursSplit(data, 0, ToLe(MAGIC_COMPRESSED, 2), ToLe(|z| + 20, 8) + (ToLe(plain, 8) + tail));
    OccursSplit(data, 2, ToLe(|z| + 20, 8), ToLe(plain, 8) + tail);
    OccursSplit(data, 10, ToLe(plain, 8), tail);
    U16Occurs(data, 0, MAGIC_COMPRESSED);
    U64Occurs(data, 2, |z| + 20);
    U64Occurs(data, 10, plain);
    OccursSplit(data, 18, unused, z);
  }

  /** Unwraps a compressed blob; `zlib` stands for the decompressor. */
  function Decompress(zlib: seq<byte> -> Stream, data: seq<byte>): (r: Result<seq<byte>, FormatError>)
  {
    var magic :- U16At(data, 0);
    if magic != MAGIC_COMPRESSED then Err(Malformed("bad compressed blob magic"))
    else
      var packed :- U64At(data, 2);
      var unpacked :- U64At(data, 10);
      if Min(packed, |data|) < 20 then Err(Malformed("compressed blob body truncated"))
      else
        var stream := zlib(data[20..Min(packed, |data|)]);
        if !stream.whole then Err(Zlib)
        else if |stream.bytes| != unpacked then Err(Malformed("compressed blob size"))
        else Ok(stream.bytes)
  }

  /** A compressed wrapper of `out`: the magic, the packed size (which counts
      this header and may be larger than the buffer), the plain size, and the
      zlib stream from byte 20. */
  ghost predicate Wraps(zlib: seq<byte> -> Stream, data: seq<byte>, out: seq<byte>) {
    exists packed: u64 :: WrapsWith(zlib, data, out, packed)
  }

  ghost predicate WrapsWith(zlib: seq<byte> -> Stream, data: seq<byte>, out: seq<byte>, packed: u64) {
    && Occurs(data, 0, ToLe(0x4301, 2)) && Occurs(data, 2, ToLe(packed, 8))
    && |out| < U64_LIMIT && Occurs(data, 10, ToLe(|out|, 8))
    && 20 <= Min(packed, |data|) && zlib(data[20..Min(packed, |data|)]) == Stream(out, true)
  }

  lemma DecompressMeaning(zlib: seq<byte> -> Stream, data: seq<byte>, out: seq<byte>)
    ensures Decompress(zlib, data) == Ok(out) <==> Wraps(zlib, data, out)
  {
    hide U16At, U64At, ToLe, Occurs;
    U16Occurs(data, 0, MAGIC_COMPRESSED);
    U64Occurs(data, 10, |out|);
    forall packed: u64 ensures U64At(data, 2) == Ok(packed) <==> Occurs(data, 2, ToLe(packed, 8)) {
      U64Occurs(data, 2, packed);
    }
    if Decompress(zlib, data) == Ok(out) {
      var packed: u64 := U64At(data, 2).value;
      assert WrapsWith(zlib, data, out, packed);
    }
  }
}

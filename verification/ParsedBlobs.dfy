/** A whole version blob (`parse_blob` in src/store.rs). */
module ParsedBlobs {
  import opened Wrappers
  import opened Bytes
  import Blobs
  import Checksums
  import Chunks
  import Manifests

  datatype ParsedBlob = ParsedBlob(
    meta: Blobs.VersionMeta,
    manifest: Manifests.Manifest,
    records: seq<Checksums.FileRecord>)

  /** The buffer with four bytes replaced. */
  function Patched(data: seq<byte>, off: nat, four: seq<byte>): (r: seq<byte>)
    requires |four| == 4
  {
    if off + 4 <= |data| then data[..off] + four + data[off + 4..] else data
  }

  function Zeroed(data: seq<byte>, off: nat): (r: seq<byte>)
    ensures |r| == |data|
    ensures off + 4 <= |data| ==> forall i :: 0 <= i < |r| ==> r[i] == if off <= i < off + 4 then 0 else data[i]
  {
    Patched(data, off, [0, 0, 0, 0])
  }

  function ParseWrapped(c: Chunks.Codec, wrapped: seq<byte>): Result<Manifests.Manifest, FormatError> {
    var wrapper :- Blobs.Decompress(c.zlib, wrapped);
    var inner :- Blobs.ParseEntries(wrapper);
    var body :- Blobs.Require(inner, 0);
    Manifests.ParseManifest(body.value)
  }

  function ParseBlob(c: Chunks.Codec, data: seq<byte>): Result<ParsedBlob, FormatError> {
    var top :- Blobs.ParseEntries(data);
    var meta :- Blobs.MetaOf(top);
    var wrapped :- Blobs.Require(top, Blobs.MANIFEST);
    var manifest :- ParseWrapped(c, wrapped.value);
    var fingerprint :- Blobs.RequireU32(top, Blobs.MANIFEST_FINGERPRINT);
    if fingerprint != manifest.fingerprint then Err(Malformed("manifest fingerprint"))
    else
      var own :- Blobs.Require(top, Blobs.OWN_CRC);
      if |own.value| != 4 then Err(Malformed("key 10 is not 4 bytes"))
      else if c.crc32(Zeroed(data, own.valueOffset)) != meta.ownCrc then Err(Malformed("blob crc"))
      else
        var table :- Blobs.Require(top, Blobs.CHECKSUMS);
        var records :- Checksums.ParseTable(table.value);
        Ok(ParsedBlob(meta, manifest, records))
  }

  /** Accepts exactly the blobs, and gives back what they hold. */
  method Parse(c: Chunks.Codec, data: seq<byte>) returns (r: Result<ParsedBlob, FormatError>)
    ensures r == ParseBlob(c, data)
    ensures forall p :: r == Ok(p) <==> HoldsBlob(c, data, p)
  {
    hide HoldsBlob;
    forall p ensures ParseBlob(c, data) == Ok(p) <==> HoldsBlob(c, data, p) {
      AcceptedIff(c, data, p);
    }
    r := ParseSteps(c, data);
  }

  method ParseSteps(c: Chunks.Codec, data: seq<byte>) returns (r: Result<ParsedBlob, FormatError>)
    ensures r == ParseBlob(c, data)
  {
    hide Blobs.ParseEntries, Blobs.MetaOf, Blobs.Require, Blobs.Decompress, Manifests.ParseManifest, Checksums.ParseTable;
    var top :- Blobs.Parse(data);
    var meta :- Blobs.MetaOf(top);
    var wrapped :- Blobs.Require(top, Blobs.MANIFEST);
    var wrapper :- Blobs.Decompress(c.zlib, wrapped.value);
    var inner :- Blobs.Parse(wrapper);
    var body :- Blobs.Require(inner, 0);
    var manifest :- Manifests.Parse(body.value);
    var fingerprint :- Blobs.RequireU32(top, Blobs.MANIFEST_FINGERPRINT);
    if fingerprint != manifest.fingerprint {
      return Err(Malformed("manifest fingerprint"));
    }
    var own :- Blobs.Require(top, Blobs.OWN_CRC);
    if |own.value| != 4 {
      return Err(Malformed("key 10 is not 4 bytes"));
    }
    var crc := c.crc32(Zeroed(data, own.valueOffset));
    if crc != meta.ownCrc {
      return Err(Malformed("blob crc"));
    }
    var table :- Blobs.Require(top, Blobs.CHECKSUMS);
    var records :- Checksums.Parse(table.value);
    r := Ok(ParsedBlob(meta, manifest, records));
  }

  // ---- what acceptance means ---------------------------------------------

  /** Key 10's entry, found by its position in the buffer. */
  ghost predicate IsOwnCrc(data: seq<byte>, e: Blobs.Entry) {
    && Blobs.ParseEntries(data).Ok? && Blobs.Lookup(Blobs.ParseEntries(data).value, ToLe(Blobs.OWN_CRC, 4)) == Some(e)
    && |e.value| == 4
  }

  lemma EntryInPlace(data: seq<byte>, e: Blobs.Entry)
    requires Blobs.ParseEntries(data).Ok? && e in Blobs.ParseEntries(data).value
    ensures 16 <= e.valueOffset && Occurs(data, e.valueOffset, e.value)
  {
    hide Blobs.Tiles, Blobs.ParseEntries;
    var es := Blobs.ParseEntries(data).value;
    Blobs.ParseAcceptsTilings(data, es);
    var i :| 0 <= i < |es| && es[i] == e;
    Blobs.TiledValues(data, es, 10, U32At(data, 2).value, i);
  }

  /** The buffer with its own crc written in. */
  function Sealed(c: Chunks.Codec, data: seq<byte>, off: nat): seq<byte> {
    Patched(data, off, ToLe(c.crc32(Zeroed(data, off)), 4))
  }

  /** An accepted blob carries at key 10 the crc of itself with exactly those
      four bytes zeroed, and the fingerprint of the manifest it holds. */
  lemma AcceptedIsSealed(c: Chunks.Codec, data: seq<byte>) returns (own: Blobs.Entry)
    requires ParseBlob(c, data).Ok?
    ensures IsOwnCrc(data, own) && Occurs(data, own.valueOffset, ToLe(ParseBlob(c, data).value.meta.ownCrc, 4))
    ensures c.crc32(Zeroed(data, own.valueOffset)) == ParseBlob(c, data).value.meta.ownCrc
    ensures Sealed(c, data, own.valueOffset) == data
    ensures Blobs.RequireU32(Blobs.ParseEntries(data).value, Blobs.MANIFEST_FINGERPRINT)
         == Ok(ParseBlob(c, data).value.manifest.fingerprint)
  {
    hide ParseBlob, Blobs.ParseEntries, Blobs.MetaOf, Blobs.RequireU32, Blobs.Lookup, ToLe, Zeroed;
    AcceptedParts(c, data);
    var top := Blobs.ParseEntries(data).value;
    own := Blobs.Require(top, Blobs.OWN_CRC).value;
    EntryInPlace(data, own);
    OwnCrcOf(top, own, ParseBlob(c, data).value.meta.ownCrc);
    assert data == data[..own.valueOffset] + own.value + data[own.valueOffset + 4..];
  }

  lemma AcceptedParts(c: Chunks.Codec, data: seq<byte>)
    requires ParseBlob(c, data).Ok?
    ensures var top := Blobs.ParseEntries(data);
      && top.Ok? && Blobs.MetaOf(top.value) == Ok(ParseBlob(c, data).value.meta)
      && Blobs.RequireU32(top.value, Blobs.MANIFEST_FINGERPRINT) == Ok(ParseBlob(c, data).value.manifest.fingerprint)
      && Blobs.Require(top.value, Blobs.OWN_CRC).Ok?
      && c.crc32(Zeroed(data, Blobs.Require(top.value, Blobs.OWN_CRC).value.valueOffset)) == ParseBlob(c, data).value.meta.ownCrc
  {
    hide Blobs.ParseEntries, Blobs.MetaOf, Blobs.Require, Blobs.RequireU32, ParseWrapped, Checksums.ParseTable, Zeroed;
  }

  lemma OwnCrcOf(top: seq<Blobs.Entry>, own: Blobs.Entry, crc: u32)
    requires Blobs.Lookup(top, ToLe(Blobs.OWN_CRC, 4)) == Some(own)
    requires Blobs.MetaOf(top).Ok? && Blobs.MetaOf(top).value.ownCrc == crc
    ensures |own.value| == 4 && own.value == ToLe(crc, 4)
  {
    hide ToLe, FromLe, Blobs.Lookup;
    U32Occurs(own.value, 0, crc);
    assert own.value[0..4] == own.value;
  }

  /** Key `key`'s value. */
  ghost predicate HoldsAt(es: seq<Blobs.Entry>, key: u32, e: Blobs.Entry) {
    Blobs.Lookup(es, ToLe(key, 4)) == Some(e)
  }

  /** The entry is a compressed blob whose key 0 is the manifest. */
  ghost predicate HoldsManifest(c: Chunks.Codec, wrapped: seq<byte>, m: Manifests.Manifest) {
    exists plain, inner, body :: HoldsManifestIn(c, wrapped, m, plain, inner, body)
  }

  ghost predicate HoldsManifestIn(c: Chunks.Codec, wrapped: seq<byte>, m: Manifests.Manifest,
                                  plain: seq<byte>, inner: seq<Blobs.Entry>, body: Blobs.Entry) {
    && Blobs.Wraps(c.zlib, wrapped, plain) && Blobs.Tiled(plain, inner)
    && HoldsAt(inner, 0, body) && Manifests.Holds(body.value, m)
  }

  /** Key 10 holds the crc of the buffer with those four bytes zeroed. */
  ghost predicate SealHolds(c: Chunks.Codec, data: seq<byte>, es: seq<Blobs.Entry>) {
    exists own :: HoldsAt(es, 10, own) && |own.value| == 4 && Sealed(c, data, own.valueOffset) == data
  }

  /** What a version blob is: entries that tile the buffer, its metadata, a
      wrapped manifest with the recorded fingerprint, the seal, and an encoded
      checksum table. */
  ghost predicate HoldsBlobWith(c: Chunks.Codec, data: seq<byte>, es: seq<Blobs.Entry>, p: ParsedBlob,
                             wrapped: Blobs.Entry, table: Blobs.Entry) {
    && Blobs.Tiled(data, es) && Blobs.HoldsMeta(es, p.meta)
    && HoldsAt(es, 3, wrapped) && HoldsManifest(c, wrapped.value, p.manifest)
    && Blobs.HoldsU32(es, 2, p.manifest.fingerprint)
    && SealHolds(c, data, es)
    && HoldsAt(es, 4, table) && Checksums.Holds(table.value, p.records)
  }

  ghost predicate HoldsBlob(c: Chunks.Codec, data: seq<byte>, p: ParsedBlob) {
    exists es, wrapped, table :: HoldsBlobWith(c, data, es, p, wrapped, table)
  }

  lemma WrappedIff(c: Chunks.Codec, wrapped: seq<byte>, m: Manifests.Manifest)
    ensures ParseWrapped(c, wrapped) == Ok(m) <==> HoldsManifest(c, wrapped, m)
  {
    hide Blobs.Decompress, Blobs.ParseEntries, Manifests.ParseManifest, Blobs.Wraps, Blobs.Tiled, Manifests.Holds, Blobs.Lookup, ToLe;
    forall plain ensures Blobs.Decompress(c.zlib, wrapped) == Ok(plain) <==> Blobs.Wraps(c.zlib, wrapped, plain) {
      Blobs.DecompressMeaning(c.zlib, wrapped, plain);
    }
    forall plain, inner ensures Blobs.ParseEntries(plain) == Ok(inner) <==> Blobs.Tiled(plain, inner) {
      Blobs.ParseAcceptsTilings(plain, inner);
    }
    forall body ensures Manifests.ParseManifest(body) == Ok(m) <==> Manifests.Holds(body, m) {
      Manifests.ParseIffHolds(body, m);
    }
    if ParseWrapped(c, wrapped) == Ok(m) {
      var plain := Blobs.Decompress(c.zlib, wrapped).value;
      var inner := Blobs.ParseEntries(plain).value;
      var body := Blobs.Require(inner, 0).value;
      assert HoldsManifestIn(c, wrapped, m, plain, inner, body);
    }
  }

  /** The seal is the crc comparison. */
  lemma SealIff(c: Chunks.Codec, data: seq<byte>, es: seq<Blobs.Entry>, own: Blobs.Entry, crc: u32)
    requires Blobs.ParseEntries(data) == Ok(es) && HoldsAt(es, 10, own) && own.value == ToLe(crc, 4)
    ensures Sealed(c, data, own.valueOffset) == data <==> c.crc32(Zeroed(data, own.valueOffset)) == crc
  {
    hide ToLe, FromLe, Blobs.ParseEntries, Blobs.Lookup, Zeroed, Pow256;
    EntryInPlace(data, own);
    var off, sum := own.valueOffset, c.crc32(Zeroed(data, own.valueOffset));
    Widths();
    FromToLe(sum, 4);
    FromToLe(crc, 4);
    assert data == data[..off] + own.value + data[off + 4..];
    var sealed := Sealed(c, data, off);
    assert sealed[off..off + 4] == ToLe(sum, 4) && data[off..off + 4] == own.value;
  }

  /** The top-level checks, given the entries. */
  ghost predicate Passes(c: Chunks.Codec, data: seq<byte>, es: seq<Blobs.Entry>, p: ParsedBlob) {
    && Blobs.MetaOf(es) == Ok(p.meta)
    && Blobs.Require(es, 3).Ok? && ParseWrapped(c, Blobs.Require(es, 3).value.value) == Ok(p.manifest)
    && Blobs.RequireU32(es, 2) == Ok(p.manifest.fingerprint)
    && Blobs.Require(es, 10).Ok? && |Blobs.Require(es, 10).value.value| == 4
    && c.crc32(Zeroed(data, Blobs.Require(es, 10).value.valueOffset)) == p.meta.ownCrc
    && Blobs.Require(es, 4).Ok? && Checksums.ParseTable(Blobs.Require(es, 4).value.value) == Ok(p.records)
  }

  lemma ParsePasses(c: Chunks.Codec, data: seq<byte>, p: ParsedBlob)
    ensures ParseBlob(c, data) == Ok(p) <==>
      Blobs.ParseEntries(data).Ok? && Passes(c, data, Blobs.ParseEntries(data).value, p)
  {
    hide Blobs.ParseEntries, Blobs.MetaOf, Blobs.Require, Blobs.RequireU32, ParseWrapped, Checksums.ParseTable, Zeroed;
  }

  lemma PassesIff(c: Chunks.Codec, data: seq<byte>, es: seq<Blobs.Entry>, p: ParsedBlob)
    requires Blobs.ParseEntries(data) == Ok(es)
    ensures Passes(c, data, es, p) <==> exists wrapped, table :: HoldsBlobWith(c, data, es, p, wrapped, table)
  {
    hide Blobs.ParseEntries, Blobs.MetaOf, Blobs.RequireU32, ParseWrapped, Checksums.ParseTable, Zeroed, Sealed,
         Blobs.HoldsMeta, Blobs.HoldsU32, HoldsManifest, Checksums.Holds, Blobs.Lookup, ToLe, Blobs.Tiled;
    Blobs.ParseAcceptsTilings(data, es);
    Blobs.MetaMeaning(es, p.meta);
    Blobs.RequiredU32(es, 2, p.manifest.fingerprint);
    if Blobs.Require(es, 3).Ok? && Blobs.Require(es, 4).Ok? {
      var wrapped, table := Blobs.Require(es, 3).value, Blobs.Require(es, 4).value;
      WrappedIff(c, wrapped.value, p.manifest);
      Checksums.ParseIffHolds(table.value, p.records);
      if Blobs.Require(es, 10).Ok? && Blobs.MetaOf(es) == Ok(p.meta) {
        var own := Blobs.Require(es, 10).value;
        OwnCrcOf(es, own, p.meta.ownCrc);
        SealIff(c, data, es, own, p.meta.ownCrc);
      }
      assert Passes(c, data, es, p) <==> HoldsBlobWith(c, data, es, p, wrapped, table);
    }
  }

  /** A buffer parses to `p` exactly when it is a version blob holding `p`. */
  lemma AcceptedIff(c: Chunks.Codec, data: seq<byte>, p: ParsedBlob)
    ensures ParseBlob(c, data) == Ok(p) <==> HoldsBlob(c, data, p)
  {
    hide ParseBlob, Blobs.ParseEntries, Passes, Blobs.Tiled, Blobs.HoldsMeta, HoldsManifest, SealHolds, Checksums.Holds, HoldsAt;
    ParsePasses(c, data, p);
    if Blobs.ParseEntries(data).Ok? {
      PassesIff(c, data, Blobs.ParseEntries(data).value, p);
    }
    forall es | Blobs.Tiled(data, es) ensures Blobs.ParseEntries(data) == Ok(es) {
      Blobs.ParseAcceptsTilings(data, es);
    }
  }

  // ---- the seal pins the blob --------------------------------------------

  /** Same length, same bytes except perhaps the four at `off`. */
  ghost predicate AgreeOutside(a: seq<byte>, b: seq<byte>, off: nat) {
    && |a| == |b| && off + 4 <= |a|
    && forall i :: 0 <= i < |a| && !(off <= i < off + 4) ==> a[i] == b[i]
  }

  lemma AgreeSlice(a: seq<byte>, b: seq<byte>, off: nat, lo: nat, hi: nat)
    requires AgreeOutside(a, b, off) && lo <= hi <= |a| && (hi <= off || off + 4 <= lo)
    ensures a[lo..hi] == b[lo..hi]
  {
  }

  /** Two entries in the same place. */
  ghost predicate SamePlace(d: Blobs.Entry, e: Blobs.Entry) {
    d.key == e.key && |d.value| == |e.value| && d.valueOffset == e.valueOffset
  }

  lemma SameEntry(a: seq<byte>, b: seq<byte>, off: nat, pos: nat)
    requires AgreeOutside(a, b, off) && Blobs.EntryAt(a, pos).Ok?
    requires var e := Blobs.EntryAt(a, pos).value.0; off + 4 <= pos || e.valueOffset <= off
    ensures Blobs.EntryAt(b, pos).Ok? && Blobs.EntryAt(b, pos).value.1 == Blobs.EntryAt(a, pos).value.1
    ensures SamePlace(Blobs.EntryAt(a, pos).value.0, Blobs.EntryAt(b, pos).value.0)
  {
    hide FromLe, Pow256;
    var e := Blobs.EntryAt(a, pos).value.0;
    AgreeSlice(a, b, off, pos, pos + 2);
    AgreeSlice(a, b, off, pos + 2, pos + 6);
    AgreeSlice(a, b, off, pos + 6, e.valueOffset);
  }

  ghost predicate SameLayout(es: seq<Blobs.Entry>, fs: seq<Blobs.Entry>) {
    |es| == |fs| && forall i :: 0 <= i < |es| ==> SamePlace(es[i], fs[i])
  }

  lemma {:induction false} EntriesAgree(a: seq<byte>, b: seq<byte>, off: nat, pos: nat, total: nat, k: nat)
    requires AgreeOutside(a, b, off) && Blobs.EntriesFrom(a, pos, total).Ok?
    requires var es := Blobs.EntriesFrom(a, pos, total).value;
      off + 4 <= pos || (k < |es| && es[k].valueOffset == off && |es[k].value| == 4)
    ensures Blobs.EntriesFrom(b, pos, total).Ok?
    ensures SameLayout(Blobs.EntriesFrom(a, pos, total).value, Blobs.EntriesFrom(b, pos, total).value)
    decreases if pos <= |a| then |a| - pos + 1 else 0
  {
    hide Blobs.EntryAt, SamePlace;
    if pos < total {
      var (e, next) := Blobs.EntryAt(a, pos).value;
      var es := Blobs.EntriesFrom(a, pos, total).value;
      var rest := Blobs.EntriesFrom(a, next, total).value;
      assert es == [e] + rest;
      ValueFollows(a, pos);
      if off + 4 > pos && k > 0 {
        assert es[k] == rest[k - 1];
        LaterValue(a, next, total, k - 1);
      }
      SameEntry(a, b, off, pos);
      EntriesAgree(a, b, off, next, total, if k > 0 then k - 1 else 0);
      assert Blobs.EntriesFrom(b, pos, total).value
        == [Blobs.EntryAt(b, pos).value.0] + Blobs.EntriesFrom(b, next, total).value;
    }
  }

  lemma ValueFollows(a: seq<byte>, pos: nat)
    requires Blobs.EntryAt(a, pos).Ok?
    ensures var (e, next) := Blobs.EntryAt(a, pos).value;
      pos + 6 <= e.valueOffset && next == e.valueOffset + |e.value|
  {
  }

  lemma LaterValue(a: seq<byte>, pos: nat, total: nat, k: nat)
    requires Blobs.EntriesFrom(a, pos, total).Ok? && k < |Blobs.EntriesFrom(a, pos, total).value|
    ensures pos + 6 <= Blobs.EntriesFrom(a, pos, total).value[k].valueOffset
  {
    hide Blobs.EntriesFrom, Blobs.Tiles;
    var es := Blobs.EntriesFrom(a, pos, total).value;
    Blobs.EntriesTile(a, pos, total, es);
    Blobs.TiledValues(a, es, pos, total, k);
  }

  /** Changing key 10's value moves no entry. */
  lemma LayoutIgnoresOwnCrc(a: seq<byte>, b: seq<byte>, own: Blobs.Entry)
    requires IsOwnCrc(a, own) && AgreeOutside(a, b, own.valueOffset)
    ensures Blobs.ParseEntries(b).Ok? && SameLayout(Blobs.ParseEntries(a).value, Blobs.ParseEntries(b).value)
  {
    hide Blobs.EntriesFrom, SameLayout, FromLe, Pow256, ToLe;
    var es := Blobs.ParseEntries(a).value;
    EntryInPlace(a, own);
    var k :| 0 <= k < |es| && es[k] == own;
    AgreeSlice(a, b, own.valueOffset, 0, 2);
    AgreeSlice(a, b, own.valueOffset, 2, 6);
    EntriesAgree(a, b, own.valueOffset, 10, U32At(a, 2).value, k);
  }

  lemma {:induction false} LookupSamePlace(es: seq<Blobs.Entry>, fs: seq<Blobs.Entry>, key: seq<byte>)
    requires SameLayout(es, fs) && Blobs.Lookup(es, key).Some?
    ensures Blobs.Lookup(fs, key).Some? && SamePlace(Blobs.Lookup(es, key).value, Blobs.Lookup(fs, key).value)
  {
    if es[0].key != key {
      LookupSamePlace(es[1..], fs[1..], key);
    }
  }

  /** Two accepted blobs that differ at most in key 10's four bytes are equal:
      the rest of the blob determines its crc. */
  lemma SealIsUnique(c: Chunks.Codec, a: seq<byte>, b: seq<byte>, own: Blobs.Entry)
    requires ParseBlob(c, a).Ok? && ParseBlob(c, b).Ok?
    requires IsOwnCrc(a, own) && AgreeOutside(a, b, own.valueOffset)
    ensures a == b
  {
    hide ParseBlob, Blobs.ParseEntries, ToLe, Blobs.Lookup;
    var x := AcceptedIsSealed(c, a);
    var y := AcceptedIsSealed(c, b);
    LayoutIgnoresOwnCrc(a, b, own);
    LookupSamePlace(Blobs.ParseEntries(a).value, Blobs.ParseEntries(b).value, ToLe(Blobs.OWN_CRC, 4));
    var off := own.valueOffset;
    assert Zeroed(a, off) == Zeroed(b, off);
    AgreeSlice(a, b, off, 0, off);
    AgreeSlice(a, b, off, off + 4, |a|);
  }
}

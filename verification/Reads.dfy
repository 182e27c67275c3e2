/** Serving file bytes out of dats through the raw-window and decoded-block
    caches (`fetch_window`, `dat_bytes`, `block` and `read` in src/store.rs). */
module Reads {
  import opened Wrappers
  import opened Bytes
  import opened Lru
  import opened ByteCache
  import opened Chunks
  import opened Depots
  import opened Versions
  import opened Tables
  import opened KeyResolution

  /** What reads depend on and never change: the keys, the dump, the listed
      dats and the bytes their files hold. */
  datatype Source = Source(
    codec: Codec, keys: KeyStore, search: bool, dump: Dump, dats: seq<DatEntry>, files: seq<seq<byte>>)
  {
    ghost predicate Valid() {
      dump.Valid() && |dats| == |files|
    }
  }

  /** `s` from `a` to `b`, as far as it reaches. */
  function Clip(s: seq<byte>, a: nat, b: nat): (r: seq<byte>) {
    s[Min(a, |s|)..Max(Min(a, |s|), Min(b, |s|))]
  }

  /** The bytes of a dat below its listed size. */
  function Stored(src: Source, dat: DatId): seq<byte>
    requires src.Valid() && dat < |src.dats|
  {
    Clip(src.files[dat], 0, src.dats[dat].size)
  }

  const RAW_WINDOW: nat := 0x10_0000

  function WindowStart(idx: nat): nat {
    idx * 0x10_0000
  }

  function Window(content: seq<byte>, idx: nat): seq<byte> {
    Clip(content, WindowStart(idx), WindowStart(idx) + 0x10_0000)
  }

  lemma ClipSplit(s: seq<byte>, a: nat, b: nat, c: nat)
    requires a <= b <= c
    ensures Clip(s, a, b) + Clip(s, b, c) == Clip(s, a, c)
  {
  }

  /** What a backend read within the listed size sees. */
  lemma ClipOfStored(file: seq<byte>, size: nat, start: nat, len: nat)
    ensures Clip(file, start, start + Min(len, Max(size - start, 0))) == Clip(Clip(file, 0, size), start, start + len)
  {
  }

  /** Part of a window is the same part of the dat. */
  lemma WindowPart(content: seq<byte>, pos: nat, take: nat)
    requires var idx := pos / 0x10_0000; take > 0 && pos - WindowStart(idx) + take <= |Window(content, idx)|
    ensures var idx := pos / 0x10_0000; var at := pos - WindowStart(idx);
      Window(content, idx)[at..at + take] == Clip(content, pos, pos + take) && pos + take <= |content|
  {
    var idx := pos / 0x10_0000;
    var from := WindowStart(idx);
    var w := Window(content, idx);
    assert from <= pos < from + 0x10_0000 && from < |content|;
    assert w == content[from..Min(from + 0x10_0000, |content|)];
    assert pos + take <= |content|;
    SliceOfSlice(content, from, Min(from + 0x10_0000, |content|), pos - from, pos - from + take);
  }

  lemma SliceOfSlice(s: seq<byte>, a: nat, b: nat, c: nat, d: nat)
    requires a <= b <= |s| && c <= d <= b - a
    ensures s[a..b][c..d] == s[a + c..a + d]
  {
    var mid := s[a..b];
    forall k | 0 <= k < d - c ensures mid[c..d][k] == s[a + c..a + d][k] {
      assert mid[c..d][k] == mid[c + k];
    }
    assert mid[c..d] == s[a + c..a + d];
  }

  /** A window that ends before `pos` means the dat does. */
  lemma WindowEnd(content: seq<byte>, pos: nat)
    requires pos - WindowStart(pos / 0x10_0000) >= |Window(content, pos / 0x10_0000)|
    ensures pos >= |content|
  {
  }

  // ---- the specification: decoding a block without caches ----------------

  function MissingDatOf(d: Dump, source: BlobId): ReadError
    requires d.Valid() && source < |d.entries|
  {
    var e := d.entries[source];
    MissingDat(e.depot, e.version, if d.parsed[source].Ok? then d.parsed[source].value.meta.datCrc else 0)
  }

  function NoSuchBlockOf(loc: FileLoc, i: nat): ReadError {
    NoSuchBlock(loc.record.fileId, i, |loc.record.blocks|)
  }

  /** As the tables place it: an existing source and dat, blocks back to back. */
  ghost predicate Placed(src: Source, loc: FileLoc) {
    && loc.source < |src.dump.entries|
    && (loc.dat.Some? ==> loc.dat.value < |src.dats|)
    && Contiguous(loc.record, |loc.record.blocks|, loc.offsets)
  }

  ghost predicate AllPlaced(src: Source, locs: set<FileLoc>) {
    forall a :: a in locs ==> Placed(src, a)
  }

  predicate HasBlock(loc: FileLoc, i: nat) {
    loc.dat.Some? && i < |loc.record.blocks| && i + 1 < |loc.offsets|
  }

  function BlockLen(loc: FileLoc, i: nat): int {
    loc.record.BlockRange(i).1 - loc.record.BlockRange(i).0
  }

  /** The stored bytes of block `i`. */
  function Raw(src: Source, loc: FileLoc, i: nat): (r: Result<seq<byte>, ReadError>)
    requires src.Valid() && Placed(src, loc)
    ensures r.Err? ==> !r.error.Other?
  {
    if loc.dat.None? then Err(MissingDatOf(src.dump, loc.source))
    else if i >= |loc.record.blocks| then Err(NoSuchBlockOf(loc, i))
    else
      var (start, end) := (loc.offsets[i], loc.offsets[i + 1]);
      var raw := Clip(Stored(src, loc.dat.value), start, end);
      if |raw| != end - start then Err(ShortRead(loc.record.fileId, i, end - start, |raw|)) else Ok(raw)
  }

  /** The key that resolution `r` gives an encrypted file, or why there is none. */
  function KeyFor(d: Dump, loc: FileLoc, r: Resolution): (k: Result<Option<AesKey>, ReadError>)
    requires d.Valid() && loc.source < |d.entries|
    ensures k.Err? ==> !k.error.Other?
  {
    if !loc.record.mode.IsEncrypted() then Ok(None)
    else
      var e := d.entries[loc.source];
      match r
      case NoKey(tried) => Err(if tried == 0 then ReadError.NoKey(e.depot) else NoWorkingKey(e.depot, e.crc, tried))
      case _ => Ok(Some(r.key))
  }

  /** Decodes stored bytes and makes the per-record checks. */
  function Checked(c: Codec, loc: FileLoc, i: nat, raw: seq<byte>, key: Option<AesKey>, verify: bool)
    : (r: Result<seq<byte>, ReadError>)
    requires i < |loc.record.blocks|
    ensures r.Err? ==> !r.error.Other?
  {
    match Decode(c, loc.record.mode, raw, key)
    case Err(e) => Err(Format(e))
    case Ok(out) =>
      if verify && c.checksum(out) != loc.record.blocks[i].checksum then
        Err(Checksum(loc.record.fileId, i, loc.record.blocks[i].checksum, c.checksum(out)))
      else if |out| != BlockLen(loc, i) then Err(BlockSize(loc.record.fileId, i, BlockLen(loc, i), |out|))
      else Ok(out)
  }

  /** Stored bytes decoded under resolution `r`. */
  function Finish(src: Source, loc: FileLoc, i: nat, raw: seq<byte>, r: Resolution, verify: bool)
    : Result<seq<byte>, ReadError>
    requires src.Valid() && Placed(src, loc) && i < |loc.record.blocks|
  {
    var key :- KeyFor(src.dump, loc, r);
    Checked(src.codec, loc, i, raw, key, verify)
  }

  function SampleOf(loc: FileLoc, i: nat, raw: seq<byte>): Sample
    requires i < |loc.record.blocks|
  {
    Sample(loc.record.mode, raw, loc.record.blocks[i].checksum)
  }

  /** Block `i` decoded straight from the dat, with the key that resolving on
      that block alone finds. */
  function Direct(src: Source, loc: FileLoc, i: nat, verify: bool): Result<seq<byte>, ReadError>
    requires src.Valid() && Placed(src, loc)
  {
    match Raw(src, loc, i)
    case Err(e) => Err(e)
    case Ok(raw) =>
      var r := Answer(src.codec, src.keys, src.search, src.dump.entries[loc.source], SampleOf(loc, i, raw));
      Finish(src, loc, i, raw, r, verify)
  }

  // ---- which keys a source can be given ----------------------------------

  ghost predicate Encrypts(src: Source, a: FileLoc, i: nat, source: BlobId)
    requires src.Valid() && Placed(src, a)
  {
    a.source == source && a.record.mode.IsEncrypted() && Raw(src, a, i).Ok?
  }

  /** The blocks a key of `source` may be resolved on. */
  ghost function SamplesOf(src: Source, locs: set<FileLoc>, source: BlobId): set<Sample>
    requires src.Valid() && AllPlaced(src, locs)
  {
    set a, i | a in locs && 0 <= i < |a.record.blocks| && Encrypts(src, a, i, source) :: SampleOf(a, i, Raw(src, a, i).value)
  }

  /** `r` is the right answer for some block of the source. */
  ghost predicate Answered(src: Source, locs: set<FileLoc>, source: BlobId, r: Resolution)
    requires src.Valid() && AllPlaced(src, locs)
  {
    && source < |src.dump.entries|
    && exists s :: s in SamplesOf(src, locs, source) && Resolves(src.codec, src.keys, src.search, src.dump.entries[source], s, r)
  }

  ghost predicate Possible(src: Source, locs: set<FileLoc>, loc: FileLoc, r: Resolution)
    requires src.Valid() && AllPlaced(src, locs)
  {
    loc.record.mode.IsEncrypted() ==> Answered(src, locs, loc.source, r)
  }

  /** `out` is what block `i` gives under some key its source can be given. */
  ghost predicate Outcome(src: Source, locs: set<FileLoc>, loc: FileLoc, i: nat, verify: bool, out: Result<seq<byte>, ReadError>)
    requires src.Valid() && AllPlaced(src, locs) && Placed(src, loc)
  {
    match Raw(src, loc, i)
    case Err(e) => out == Err(e)
    case Ok(raw) => exists r :: Possible(src, locs, loc, r) && out == Finish(src, loc, i, raw, r, verify)
  }

  /** All blocks of the file's source are served by one key, or the file is
      not encrypted. */
  ghost predicate SteadyKey(src: Source, locs: set<FileLoc>, loc: FileLoc)
    requires src.Valid() && AllPlaced(src, locs) && Placed(src, loc)
  {
    loc.record.mode.IsEncrypted() ==>
      OneKeyForAll(src.codec, src.keys, src.search, src.dump.entries[loc.source], SamplesOf(src, locs, loc.source))
  }

  lemma OwnSample(src: Source, locs: set<FileLoc>, loc: FileLoc, i: nat)
    requires src.Valid() && AllPlaced(src, locs) && loc in locs && Raw(src, loc, i).Ok? && loc.record.mode.IsEncrypted()
    ensures i < |loc.record.blocks| && SampleOf(loc, i, Raw(src, loc, i).value) in SamplesOf(src, locs, loc.source)
  {
    assert Encrypts(src, loc, i, loc.source);
  }

  lemma RawInRange(src: Source, loc: FileLoc, i: nat)
    requires src.Valid() && Placed(src, loc) && Raw(src, loc, i).Ok?
    ensures HasBlock(loc, i)
  {
  }

  /** The answer on a block's own sample is always possible. */
  lemma DirectIsOutcome(src: Source, locs: set<FileLoc>, loc: FileLoc, i: nat, verify: bool)
    requires src.Valid() && AllPlaced(src, locs) && loc in locs
    ensures Outcome(src, locs, loc, i, verify, Direct(src, loc, i, verify))
  {
    hide Raw, Resolves, Finish, SamplesOf, Contiguous;
    if Raw(src, loc, i).Ok? {
      RawInRange(src, loc, i);
      if loc.record.mode.IsEncrypted() {
        OwnSample(src, locs, loc, i);
      }
      var raw := Raw(src, loc, i).value;
      var r := Answer(src.codec, src.keys, src.search, src.dump.entries[loc.source], SampleOf(loc, i, raw));
      assert Possible(src, locs, loc, r);
    }
  }

  /** Two answers a steady source can be given are the same. */
  lemma SteadyAnswers(src: Source, locs: set<FileLoc>, loc: FileLoc, q: Resolution, r: Resolution)
    requires src.Valid() && AllPlaced(src, locs) && loc in locs && SteadyKey(src, locs, loc)
    requires loc.record.mode.IsEncrypted() && Answered(src, locs, loc.source, q) && Answered(src, locs, loc.source, r)
    ensures q == r
  {
    hide Resolves, SamplesOf, OneKeyForAll, Answer;
    var e := src.dump.entries[loc.source];
    var samples := SamplesOf(src, locs, loc.source);
    AnswersAgreeIff(src.codec, src.keys, src.search, e, samples);
    var x :| x in samples && Resolves(src.codec, src.keys, src.search, e, x, q);
    var y :| y in samples && Resolves(src.codec, src.keys, src.search, e, y, r);
    ResolutionUnique(src.codec, src.keys, src.search, e, x, q, Answer(src.codec, src.keys, src.search, e, x));
    ResolutionUnique(src.codec, src.keys, src.search, e, y, r, Answer(src.codec, src.keys, src.search, e, y));
  }

  /** An encrypted file's source can be given only one answer exactly when its
      key is steady. */
  lemma SteadyKeyIff(src: Source, locs: set<FileLoc>, loc: FileLoc)
    requires src.Valid() && AllPlaced(src, locs) && loc in locs && loc.record.mode.IsEncrypted()
    ensures SteadyKey(src, locs, loc) <==>
      forall q, r :: Answered(src, locs, loc.source, q) && Answered(src, locs, loc.source, r) ==> q == r
  {
    hide Resolves, SamplesOf, OneKeyForAll, Answer;
    if SteadyKey(src, locs, loc) {
      forall q, r | Answered(src, locs, loc.source, q) && Answered(src, locs, loc.source, r) ensures q == r {
        SteadyAnswers(src, locs, loc, q, r);
      }
    } else {
      var e := src.dump.entries[loc.source];
      var samples := SamplesOf(src, locs, loc.source);
      AnswersAgreeIff(src.codec, src.keys, src.search, e, samples);
      var x, y :| x in samples && y in samples
        && Answer(src.codec, src.keys, src.search, e, x) != Answer(src.codec, src.keys, src.search, e, y);
      assert Answered(src, locs, loc.source, Answer(src.codec, src.keys, src.search, e, x));
      assert Answered(src, locs, loc.source, Answer(src.codec, src.keys, src.search, e, y));
    }
  }

  /** With a steady key, or none needed, a block has exactly one outcome: its
      direct decoding, whatever happened before. */
  lemma SteadyOutcome(src: Source, locs: set<FileLoc>, loc: FileLoc, i: nat, verify: bool, out: Result<seq<byte>, ReadError>)
    requires src.Valid() && AllPlaced(src, locs) && loc in locs && SteadyKey(src, locs, loc)
    ensures Outcome(src, locs, loc, i, verify, out) <==> out == Direct(src, loc, i, verify)
  {
    hide Raw, Resolves, SamplesOf, Placed, Checked, Answered, SteadyKey, Answer;
    DirectIsOutcome(src, locs, loc, i, verify);
    if Raw(src, loc, i).Ok? && Outcome(src, locs, loc, i, verify, out) {
      RawInRange(src, loc, i);
      var raw := Raw(src, loc, i).value;
      var q :| Possible(src, locs, loc, q) && out == Finish(src, loc, i, raw, q, verify);
      var r :| Possible(src, locs, loc, r) && Direct(src, loc, i, verify) == Finish(src, loc, i, raw, r, verify);
      if loc.record.mode.IsEncrypted() {
        SteadyAnswers(src, locs, loc, q, r);
      }
    }
  }

  /** Without a steady key: a block on which no key is found, whether or not
      candidates were tried, may deny the key to every other block of its
      source, even one that decodes directly. */
  lemma DamagedBlockDenies(src: Source, locs: set<FileLoc>, a: FileLoc, i: nat, b: FileLoc, j: nat, verify: bool)
    requires src.Valid() && AllPlaced(src, locs) && a in locs && b in locs && a.source == b.source
    requires a.record.mode.IsEncrypted() && b.record.mode.IsEncrypted() && Raw(src, a, i).Ok? && Raw(src, b, j).Ok? && HasBlock(b, j)
    requires Answer(src.codec, src.keys, src.search, src.dump.entries[b.source], SampleOf(b, j, Raw(src, b, j).value)).NoKey?
    ensures var e, tried := src.dump.entries[a.source], if src.search then |src.keys.candidates| else 0;
      Outcome(src, locs, a, i, verify, Err(if tried == 0 then ReadError.NoKey(e.depot) else NoWorkingKey(e.depot, e.crc, tried)))
  {
    hide Raw, Works, SamplesOf, Contiguous, Checked;
    var r := Answer(src.codec, src.keys, src.search, src.dump.entries[b.source], SampleOf(b, j, Raw(src, b, j).value));
    OwnSample(src, locs, b, j);
    RawInRange(src, a, i);
    assert r.tried == if src.search then |src.keys.candidates| else 0;
    assert Possible(src, locs, a, r);
    assert Finish(src, a, i, Raw(src, a, i).value, r, verify).Err?;
  }

  /** A block decoded with the checksum check is decoded without it too. */
  lemma UncheckedOutcome(src: Source, locs: set<FileLoc>, loc: FileLoc, i: nat, verify: bool, v: seq<byte>)
    requires src.Valid() && AllPlaced(src, locs) && Placed(src, loc) && Outcome(src, locs, loc, i, verify, Ok(v))
    ensures Outcome(src, locs, loc, i, false, Ok(v))
  {
    hide Raw, Possible, Placed;
    RawInRange(src, loc, i);
    var raw := Raw(src, loc, i).value;
    var r :| Possible(src, locs, loc, r) && Ok(v) == Finish(src, loc, i, raw, r, verify);
    assert Finish(src, loc, i, raw, r, false) == Ok(v);
  }

  /** A decoded block fills its range of the file. */
  lemma DecodedLength(src: Source, locs: set<FileLoc>, loc: FileLoc, i: nat, verify: bool, v: seq<byte>)
    requires src.Valid() && AllPlaced(src, locs) && Placed(src, loc) && Outcome(src, locs, loc, i, verify, Ok(v))
    ensures HasBlock(loc, i) && |v| == Min(i * 0x8000 + 0x8000, loc.record.size) - i * 0x8000
  {
    hide Raw, Possible, Placed;
    RawInRange(src, loc, i);
  }

  // ---- blocks that share a cache key -------------------------------------

  ghost predicate SharesKey(a: FileLoc, i: nat, b: FileLoc, j: nat) {
    HasBlock(a, i) && HasBlock(b, j) && a.dat == b.dat && a.offsets[i] == b.offsets[j]
  }

  /** Whatever block `i` of `a` may be cached as, block `j` of `b` decodes to. */
  ghost predicate Covers(src: Source, locs: set<FileLoc>, verify: bool, a: FileLoc, i: nat, b: FileLoc, j: nat)
    requires src.Valid() && AllPlaced(src, locs) && Placed(src, a) && Placed(src, b)
  {
    forall v :: Outcome(src, locs, a, i, verify, Ok(v)) ==> Outcome(src, locs, b, j, false, Ok(v))
  }

  /** The cache key is (dat, start): a block that decodes and is cached must
      be the right one for every record that shares its key. */
  ghost predicate Coherent(src: Source, locs: set<FileLoc>, verify: bool)
    requires src.Valid() && AllPlaced(src, locs)
  {
    forall a, b, i: nat, j: nat :: a in locs && b in locs && SharesKey(a, i, b, j) && !a.record.mode.Plain? ==>
      Covers(src, locs, verify, a, i, b, j)
  }

  /** Enough for that: the records agree on mode, end, decoded length and, if
      encrypted, source. */
  lemma AlikeBlocksCover(src: Source, locs: set<FileLoc>, verify: bool, a: FileLoc, i: nat, b: FileLoc, j: nat)
    requires src.Valid() && AllPlaced(src, locs) && Placed(src, a) && Placed(src, b) && SharesKey(a, i, b, j)
    requires a.record.mode == b.record.mode && a.offsets[i + 1] == b.offsets[j + 1] && BlockLen(a, i) == BlockLen(b, j)
    requires a.record.mode.IsEncrypted() ==> a.source == b.source
    ensures Covers(src, locs, verify, a, i, b, j)
  {
    hide Answered, Clip, Stored, Decode;
    forall v | Outcome(src, locs, a, i, verify, Ok(v)) ensures Outcome(src, locs, b, j, false, Ok(v)) {
      assert Raw(src, b, j) == Raw(src, a, i);
      var raw := Raw(src, a, i).value;
      var r :| Possible(src, locs, a, r) && Ok(v) == Finish(src, a, i, raw, r, verify);
      assert Possible(src, locs, b, r) && Finish(src, b, j, raw, r, false) == Ok(v);
    }
  }

  /** What a call for block `i` may be served: its own decoding, or that of a
      non-plain block under the same key. */
  ghost predicate Served(src: Source, locs: set<FileLoc>, verify: bool, loc: FileLoc, i: nat, v: seq<byte>)
    requires src.Valid() && AllPlaced(src, locs)
  {
    exists a, k: nat :: a in locs && SharesKey(a, k, loc, i) && (!a.record.mode.Plain? || (a, k) == (loc, i))
                        && Outcome(src, locs, a, k, verify, Ok(v))
  }

  lemma ServedBySelf(src: Source, locs: set<FileLoc>, verify: bool, loc: FileLoc, i: nat, v: seq<byte>)
    requires src.Valid() && AllPlaced(src, locs) && loc in locs && Outcome(src, locs, loc, i, verify, Ok(v))
    ensures HasBlock(loc, i) && Served(src, locs, verify, loc, i, v)
  {
    hide Outcome;
    DecodedLength(src, locs, loc, i, verify, v);
    assert SharesKey(loc, i, loc, i);
  }

  /** Where records that share a key are coherent, a call is served its own
      decoding, of the full length. */
  lemma CoherentServed(src: Source, locs: set<FileLoc>, verify: bool, loc: FileLoc, i: nat, v: seq<byte>)
    requires src.Valid() && AllPlaced(src, locs) && Coherent(src, locs, verify) && loc in locs
    requires Served(src, locs, verify, loc, i, v)
    ensures Outcome(src, locs, loc, i, false, Ok(v)) && |v| == BlockLen(loc, i)
  {
    hide Outcome;
    var a, k: nat :| a in locs && SharesKey(a, k, loc, i) && (!a.record.mode.Plain? || (a, k) == (loc, i))
                     && Outcome(src, locs, a, k, verify, Ok(v));
    if a.record.mode.Plain? {
      UncheckedOutcome(src, locs, loc, i, verify, v);
    } else {
      assert Covers(src, locs, verify, a, k, loc, i);
    }
    DecodedLength(src, locs, loc, i, false, v);
  }

  lemma ServedFits(src: Source, locs: set<FileLoc>, verify: bool, loc: FileLoc, i: nat, v: seq<byte>)
    requires src.Valid() && AllPlaced(src, locs) && Served(src, locs, verify, loc, i, v)
    ensures HasBlock(loc, i) && |v| <= 0x8000
  {
    hide Outcome;
    var a, k: nat :| a in locs && SharesKey(a, k, loc, i) && Outcome(src, locs, a, k, verify, Ok(v));
    DecodedLength(src, locs, a, k, verify, v);
  }

  /** Some record with this key has the checksum of `v`. */
  ghost predicate Vouched(c: Codec, locs: set<FileLoc>, key: (DatId, nat), v: seq<byte>) {
    exists a, i: nat :: a in locs && HasBlock(a, i) && (a.dat.value, a.offsets[i]) == key && c.checksum(v) == a.record.blocks[i].checksum
  }

  /** With verification on, whatever is served has been checked. */
  lemma ServedIsVouched(src: Source, locs: set<FileLoc>, loc: FileLoc, i: nat, v: seq<byte>)
    requires src.Valid() && AllPlaced(src, locs) && Served(src, locs, true, loc, i, v)
    ensures HasBlock(loc, i) && Vouched(src.codec, locs, (loc.dat.value, loc.offsets[i]), v)
  {
    hide Outcome;
    var a, k: nat :| a in locs && SharesKey(a, k, loc, i) && Outcome(src, locs, a, k, true, Ok(v));
    OutcomeIsChecked(src, locs, a, k, v);
  }

  lemma OutcomeIsChecked(src: Source, locs: set<FileLoc>, loc: FileLoc, i: nat, v: seq<byte>)
    requires src.Valid() && AllPlaced(src, locs) && Placed(src, loc) && Outcome(src, locs, loc, i, true, Ok(v))
    ensures HasBlock(loc, i) && src.codec.checksum(v) == loc.record.blocks[i].checksum
  {
    hide Raw, Possible, Placed;
    RawInRange(src, loc, i);
  }

  /** What a cached block is: the decoding of some non-plain block under its key. */
  ghost predicate BlockTrue(src: Source, locs: set<FileLoc>, verify: bool, key: (DatId, nat), v: seq<byte>)
    requires src.Valid() && AllPlaced(src, locs)
  {
    exists a, k: nat :: a in locs && HasBlock(a, k) && (a.dat.value, a.offsets[k]) == key && !a.record.mode.Plain?
                        && Outcome(src, locs, a, k, verify, Ok(v))
  }

  // ---- a file's bytes ----------------------------------------------------

  /** Byte `pos` of a file with the given blocks. */
  function ByteAt(blocks: map<nat, seq<byte>>, pos: nat): byte {
    var i := pos / 0x8000;
    if i in blocks && pos % 0x8000 < |blocks[i]| then blocks[i][pos % 0x8000] else 0
  }

  function BytesOf(blocks: map<nat, seq<byte>>, a: nat, b: nat): (r: seq<byte>)
    requires a <= b
    ensures |r| == b - a
  {
    seq<byte>(b - a, k requires 0 <= k < b - a => ByteAt(blocks, a + k))
  }

  /** Block `i` holds some byte of [a, b). */
  predicate Under(a: nat, b: nat, i: nat) {
    Max(a, i * 0x8000) < Min(b, i * 0x8000 + 0x8000)
  }

  /** Something served for every block under [a, b). */
  ghost predicate View(src: Source, locs: set<FileLoc>, verify: bool, loc: FileLoc, blocks: map<nat, seq<byte>>, a: nat, b: nat)
    requires src.Valid() && AllPlaced(src, locs)
  {
    forall i: nat :: Under(a, b, i) ==> i in blocks && Served(src, locs, verify, loc, i, blocks[i])
  }

  lemma BytesSplit(blocks: map<nat, seq<byte>>, a: nat, b: nat, c: nat)
    requires a <= b <= c
    ensures BytesOf(blocks, a, b) + BytesOf(blocks, b, c) == BytesOf(blocks, a, c)
  {
  }

  lemma UnderByte(a: nat, b: nat, pos: nat)
    requires a <= pos < b
    ensures Under(a, b, pos / 0x8000)
  {
  }

  lemma UnderSplit(a: nat, b: nat, c: nat, i: nat)
    requires a <= b <= c
    ensures Under(a, c, i) <==> Under(a, b, i) || Under(b, c, i)
  {
  }

  /** Only the blocks under a range matter to it. */
  lemma BytesAgree(x: map<nat, seq<byte>>, y: map<nat, seq<byte>>, a: nat, b: nat)
    requires a <= b && forall i: nat :: Under(a, b, i) ==> i in x && i in y && x[i] == y[i]
    ensures BytesOf(x, a, b) == BytesOf(y, a, b)
  {
    hide Under;
    var p, q := BytesOf(x, a, b), BytesOf(y, a, b);
    forall k | 0 <= k < |p| ensures p[k] == q[k] {
      UnderByte(a, b, a + k);
      assert p[k] == ByteAt(x, a + k) && q[k] == ByteAt(y, a + k);
    }
  }

  lemma SameBlock(pos: nat, k: nat)
    requires pos % 0x8000 + k < 0x8000
    ensures (pos + k) / 0x8000 == pos / 0x8000 && (pos + k) % 0x8000 == pos % 0x8000 + k
  {
  }

  /** Part of a block is the same part of the file. */
  lemma BlockPart(blocks: map<nat, seq<byte>>, pos: nat, take: nat)
    requires var i := pos / 0x8000; i in blocks && pos % 0x8000 + take <= |blocks[i]| <= 0x8000
    ensures blocks[pos / 0x8000][pos % 0x8000..pos % 0x8000 + take] == BytesOf(blocks, pos, pos + take)
  {
    var b := blocks[pos / 0x8000];
    var at := pos % 0x8000;
    var part := BytesOf(blocks, pos, pos + take);
    forall k | 0 <= k < |part| ensures part[k] == b[at + k] {
      SameBlock(pos, k);
      assert part[k] == ByteAt(blocks, pos + k);
    }
    assert b[at..at + take] == part;
  }

  /** `out` is exactly bytes [offset, min(offset + len, size)) of the file, as
      many blocks as that takes being served once each. */
  ghost predicate Serves(src: Source, locs: set<FileLoc>, verify: bool, loc: FileLoc, offset: nat, len: nat, out: seq<byte>)
    requires src.Valid() && AllPlaced(src, locs)
  {
    var end := Min(offset + len, loc.record.size);
    if offset >= end then out == []
    else exists blocks :: View(src, locs, verify, loc, blocks, offset, end) && out == BytesOf(blocks, offset, end)
  }

  /** `x` is byte `pos` of something served for its block. */
  ghost predicate ServedByte(src: Source, locs: set<FileLoc>, verify: bool, loc: FileLoc, pos: nat, x: byte)
    requires src.Valid() && AllPlaced(src, locs)
  {
    exists v :: Served(src, locs, verify, loc, pos / 0x8000, v) && pos % 0x8000 < |v| && v[pos % 0x8000] == x
  }

  ghost predicate ServedBytes(src: Source, locs: set<FileLoc>, verify: bool, loc: FileLoc, offset: nat, out: seq<byte>)
    requires src.Valid() && AllPlaced(src, locs)
  {
    forall k :: 0 <= k < |out| ==> ServedByte(src, locs, verify, loc, offset + k, out[k])
  }

  /** The first `n` blocks, where they decode directly. */
  function DirectBlocks(src: Source, loc: FileLoc, n: nat): map<nat, seq<byte>>
    requires src.Valid() && Placed(src, loc)
  {
    map i: nat | i < n && Direct(src, loc, i, false).Ok? :: Direct(src, loc, i, false).value
  }

  /** With a steady key, or none needed, a successful read is the bytes of the
      directly decoded blocks, all of which decode. */
  lemma SteadyRead(src: Source, locs: set<FileLoc>, verify: bool, loc: FileLoc, offset: nat, len: nat, out: seq<byte>)
    requires src.Valid() && AllPlaced(src, locs) && Coherent(src, locs, verify) && loc in locs && SteadyKey(src, locs, loc)
    requires Serves(src, locs, verify, loc, offset, len, out)
    ensures var end := Min(offset + len, loc.record.size);
      && (forall i: nat :: Under(offset, end, i) ==> Direct(src, loc, i, false).Ok?)
      && out == if offset < end then BytesOf(DirectBlocks(src, loc, end), offset, end) else []
  {
    hide Outcome, Direct, Placed, SteadyKey, Served, Coherent;
    var end := Min(offset + len, loc.record.size);
    if offset < end {
      var blocks :| View(src, locs, verify, loc, blocks, offset, end) && out == BytesOf(blocks, offset, end);
      SteadyView(src, locs, verify, loc, blocks, offset, end);
      var direct := DirectBlocks(src, loc, end);
      forall i: nat | Under(offset, end, i) ensures i in direct && direct[i] == blocks[i] {
        assert i < end;
      }
      BytesAgree(blocks, direct, offset, end);
    }
  }

  lemma SteadyView(src: Source, locs: set<FileLoc>, verify: bool, loc: FileLoc, blocks: map<nat, seq<byte>>, a: nat, b: nat)
    requires src.Valid() && AllPlaced(src, locs) && Coherent(src, locs, verify) && loc in locs && SteadyKey(src, locs, loc)
    requires View(src, locs, verify, loc, blocks, a, b)
    ensures forall i: nat :: Under(a, b, i) ==> i in blocks && Direct(src, loc, i, false) == Ok(blocks[i])
  {
    hide Outcome, Direct, Placed, SteadyKey, Served, Coherent;
    forall i: nat | Under(a, b, i) ensures i in blocks && Direct(src, loc, i, false) == Ok(blocks[i]) {
      CoherentServed(src, locs, verify, loc, i, blocks[i]);
      SteadyOutcome(src, locs, loc, i, false, Ok(blocks[i]));
    }
  }

  lemma ServedLength(src: Source, locs: set<FileLoc>, verify: bool, loc: FileLoc, offset: nat, len: nat, out: seq<byte>)
    requires src.Valid() && AllPlaced(src, locs) && Serves(src, locs, verify, loc, offset, len, out)
    ensures |out| == Max(0, Min(len, loc.record.size - offset))
  {
    hide View;
  }

  lemma UnderAll(src: Source, loc: FileLoc, a: nat, b: nat)
    requires src.Valid() && Placed(src, loc) && a <= b
    requires forall i: nat :: Under(a, b, i) ==> Direct(src, loc, i, false).Ok?
    ensures forall n: nat :: n >= b ==> BytesOf(DirectBlocks(src, loc, n), a, b) == BytesOf(DirectBlocks(src, loc, b), a, b)
  {
    hide Direct, Placed;
    forall n: nat | n >= b ensures BytesOf(DirectBlocks(src, loc, n), a, b) == BytesOf(DirectBlocks(src, loc, b), a, b) {
      forall i: nat | Under(a, b, i) ensures i < b {
      }
      BytesAgree(DirectBlocks(src, loc, n), DirectBlocks(src, loc, b), a, b);
    }
  }

  /** A read that succeeds is never cut short, and with a steady key reading
      on from where it ended gives what one longer read would have given. */
  lemma AdjacentReadsConcatenate(src: Source, locs: set<FileLoc>, verify: bool, loc: FileLoc,
                                 offset: nat, n: nat, m: nat, x: seq<byte>, y: seq<byte>)
    requires src.Valid() && AllPlaced(src, locs) && loc in locs
    requires Serves(src, locs, verify, loc, offset, n, x) && Serves(src, locs, verify, loc, offset + n, m, y)
    ensures |x| == Max(0, Min(n, loc.record.size - offset))
    ensures Coherent(src, locs, verify) && SteadyKey(src, locs, loc) ==> Serves(src, locs, verify, loc, offset, n + m, x + y)
  {
    hide Served, Placed, SteadyKey, BytesOf, Coherent;
    ServedLength(src, locs, verify, loc, offset, n, x);
    var a, b, c := offset, Min(offset + n, loc.record.size), Min(offset + n + m, loc.record.size);
    assert x == [] ==> x + y == y;
    assert y == [] ==> x + y == x;
    if Coherent(src, locs, verify) && SteadyKey(src, locs, loc) && a < b < c {
      var p :| View(src, locs, verify, loc, p, a, b) && x == BytesOf(p, a, b);
      var q :| View(src, locs, verify, loc, q, b, c) && y == BytesOf(q, b, c);
      JoinViews(src, locs, verify, loc, p, q, a, b, c);
    }
  }

  lemma JoinViews(src: Source, locs: set<FileLoc>, verify: bool, loc: FileLoc,
                  p: map<nat, seq<byte>>, q: map<nat, seq<byte>>, a: nat, b: nat, c: nat)
    requires src.Valid() && AllPlaced(src, locs) && Coherent(src, locs, verify) && loc in locs && SteadyKey(src, locs, loc)
    requires a <= b <= c && View(src, locs, verify, loc, p, a, b) && View(src, locs, verify, loc, q, b, c)
    ensures var both := Merge(p, q, a, b);
      View(src, locs, verify, loc, both, a, c) && BytesOf(p, a, b) + BytesOf(q, b, c) == BytesOf(both, a, c)
  {
    hide Served, Direct, Placed, SteadyKey, BytesOf, Coherent, Under;
    SteadyView(src, locs, verify, loc, p, a, b);
    SteadyView(src, locs, verify, loc, q, b, c);
    forall i: nat ensures Under(a, c, i) <==> Under(a, b, i) || Under(b, c, i) {
      UnderSplit(a, b, c, i);
    }
    // A block in both views was decoded directly in both.
    var both := Merge(p, q, a, b);
    BytesAgree(both, p, a, b);
    BytesAgree(both, q, b, c);
    BytesSplit(both, a, b, c);
  }

  function Merge(p: map<nat, seq<byte>>, q: map<nat, seq<byte>>, a: nat, b: nat): map<nat, seq<byte>> {
    map i | i in p.Keys + q.Keys :: if i in p && (Under(a, b, i) || i !in q) then p[i] else q[i]
  }

  /** The first `n` directly decoded blocks, end to end. */
  function Joined(src: Source, loc: FileLoc, n: nat): seq<byte>
    requires src.Valid() && Placed(src, loc)
  {
    if n == 0 then []
    else
      var b := Direct(src, loc, n - 1, false);
      Joined(src, loc, n - 1) + if b.Ok? then b.value else []
  }

  lemma DirectLength(src: Source, loc: FileLoc, i: nat)
    requires src.Valid() && Placed(src, loc) && Direct(src, loc, i, false).Ok?
    ensures |Direct(src, loc, i, false).value| == Min(i * 0x8000 + 0x8000, loc.record.size) - i * 0x8000
  {
  }

  lemma {:induction false} JoinedIsBytes(src: Source, loc: FileLoc, n: nat, blocks: map<nat, seq<byte>>)
    requires src.Valid() && Placed(src, loc)
    requires forall i: nat :: i < n ==> Direct(src, loc, i, false).Ok? && i * 0x8000 < loc.record.size
    requires forall i: nat :: i < n ==> i in blocks && blocks[i] == Direct(src, loc, i, false).value
    ensures Joined(src, loc, n) == BytesOf(blocks, 0, Min(n * 0x8000, loc.record.size))
  {
    hide Direct, Placed;
    if n > 0 {
      hide BytesOf;
      var i := n - 1;
      JoinedIsBytes(src, loc, i, blocks);
      assert Direct(src, loc, i, false).Ok? && i * 0x8000 < loc.record.size;
      DirectLength(src, loc, i);
      var b := Direct(src, loc, i, false).value;
      var at := i * 0x8000;
      assert at / 0x8000 == i && at % 0x8000 == 0;
      BlockPart(blocks, at, |b|);
      assert b[0..|b|] == b;
      BytesSplit(blocks, 0, at, at + |b|);
    }
  }

  /** Where all of a file's `n` blocks decode, a read is a slice of their
      concatenation, which is as long as the file. */
  lemma ReadIsSlice(src: Source, locs: set<FileLoc>, verify: bool, loc: FileLoc, n: nat, offset: nat, len: nat, out: seq<byte>)
    requires src.Valid() && AllPlaced(src, locs) && Coherent(src, locs, verify) && loc in locs && SteadyKey(src, locs, loc)
    requires forall i: nat :: i < n ==> Direct(src, loc, i, false).Ok? && i * 0x8000 < loc.record.size
    requires n * 0x8000 >= loc.record.size && Serves(src, locs, verify, loc, offset, len, out)
    ensures |Joined(src, loc, n)| == loc.record.size
    ensures out == Clip(Joined(src, loc, n), offset, offset + len)
  {
    hide Direct, Placed, BytesOf, SteadyKey, Served, Under, Coherent;
    var size, end := loc.record.size, Min(offset + len, loc.record.size);
    var all := DirectBlocks(src, loc, Max(n, size));
    JoinedIsBytes(src, loc, n, all);
    SteadyRead(src, locs, verify, loc, offset, len, out);
    if offset < end {
      UnderAll(src, loc, offset, end);
      BytesSplit(all, 0, offset, end);
      BytesSplit(all, 0, end, size);
      assert Joined(src, loc, n) == BytesOf(all, 0, offset) + out + BytesOf(all, end, size);
    }
  }

  /** What the tables answer with can be read: an existing source, a listed
      dat, blocks back to back. */
  lemma {:induction false} LocatedIsPlaced(src: Source, b: BlobId, t: FileTable, f: u32)
    requires src.Valid() && (forall k :: k in src.dump.dats ==> src.dump.dats[k] < |src.dats|)
    requires WellLayered(src.dump, b, t) && Lookup(t, f).Some?
    ensures Placed(src, Lookup(t, f).value) && Lookup(t, f).value.record.fileId == f
    decreases t
  {
    if f in t.own {
      assert OwnFile(src.dump, b, |src.dump.parsed[b].value.records|, t.own, f);
      assert Places(src.dump, b, |src.dump.parsed[b].value.records|, f, t.own[f]);
    } else {
      LocatedIsPlaced(src, ParentOf(src.dump, b).value.value, t.parent.value, f);
    }
  }

  // ---- what the caches hold ----------------------------------------------

  type Buffers = Entries<(DatId, nat)>

  ghost predicate SameContents(es: Buffers, fs: Buffers) {
    forall k: (DatId, nat) :: Find(es, k) == Find(fs, k)
  }

  ghost predicate RawHolds(src: Source, k: (DatId, nat), w: seq<byte>)
    requires src.Valid()
  {
    k.0 < |src.dats| && w == Window(Stored(src, k.0), k.1)
  }

  /** Every cached window is that window of its dat. */
  ghost predicate RawTrue(src: Source, es: Buffers)
    requires src.Valid()
  {
    forall k: (DatId, nat) :: Find(es, k).Some? ==> RawHolds(src, k, Find(es, k).value)
  }

  /** Every cached block decodes some record with its key. */
  ghost predicate BlocksTrue(src: Source, locs: set<FileLoc>, verify: bool, es: Buffers)
    requires src.Valid() && AllPlaced(src, locs)
  {
    forall k: (DatId, nat) :: Find(es, k).Some? ==> BlockTrue(src, locs, verify, k, Find(es, k).value)
  }

  /** Every remembered resolution is right for some block of its source. */
  ghost predicate MemoTrue(src: Source, locs: set<FileLoc>, resolved: map<BlobId, Resolution>)
    requires src.Valid() && AllPlaced(src, locs)
  {
    forall b :: b in resolved ==> Answered(src, locs, b, resolved[b])
  }

  lemma RawInsert(src: Source, es: Buffers, k: (DatId, nat), w: seq<byte>, capacity: nat)
    requires src.Valid() && DistinctKeys(es) && RawTrue(src, es) && RawHolds(src, k, w)
    ensures RawTrue(src, Inserted(es, k, w, capacity))
  {
    hide RawHolds, Inserted;
    InsertEffect(es, k, w, capacity);
    OversizedInsert(es, k, w, capacity);
  }

  lemma BlocksInsert(src: Source, locs: set<FileLoc>, verify: bool, es: Buffers, k: (DatId, nat), v: seq<byte>, capacity: nat)
    requires src.Valid() && AllPlaced(src, locs)
    requires DistinctKeys(es) && BlocksTrue(src, locs, verify, es) && BlockTrue(src, locs, verify, k, v)
    ensures BlocksTrue(src, locs, verify, Inserted(es, k, v, capacity))
  {
    hide BlockTrue, Inserted;
    InsertEffect(es, k, v, capacity);
    OversizedInsert(es, k, v, capacity);
  }

  lemma OversizedInsert(es: Buffers, k: (DatId, nat), v: seq<byte>, capacity: nat)
    ensures |v| > capacity ==> Inserted(es, k, v, capacity) == es
  {
  }

  lemma TouchedBlocks(src: Source, locs: set<FileLoc>, verify: bool, es: Buffers, fs: Buffers)
    requires src.Valid() && AllPlaced(src, locs) && BlocksTrue(src, locs, verify, es) && SameContents(es, fs)
    ensures BlocksTrue(src, locs, verify, fs)
  {
    hide BlockTrue;
  }

  lemma HitIsServed(src: Source, locs: set<FileLoc>, verify: bool, es: Buffers, loc: FileLoc, i: nat)
    requires src.Valid() && AllPlaced(src, locs) && BlocksTrue(src, locs, verify, es)
    requires loc in locs && HasBlock(loc, i) && Find(es, (loc.dat.value, loc.offsets[i])).Some?
    ensures Served(src, locs, verify, loc, i, Find(es, (loc.dat.value, loc.offsets[i])).value)
  {
    hide Outcome;
    var key := (loc.dat.value, loc.offsets[i]);
    var v := Find(es, key).value;
    assert BlockTrue(src, locs, verify, key, v);
    var a, k: nat :| a in locs && HasBlock(a, k) && (a.dat.value, a.offsets[k]) == key && !a.record.mode.Plain?
                     && Outcome(src, locs, a, k, verify, Ok(v));
    assert SharesKey(a, k, loc, i);
  }

  // ---- the cached implementation -----------------------------------------

  class Store {
    const src: Source
    const verify: bool
    /** Every location that is ever read. */
    ghost const locs: set<FileLoc>
    const raw: ByteLru<(DatId, nat)>
    const blocks: ByteLru<(DatId, nat)>
    /** Which key decrypts each source, as far as known. */
    var resolved: map<BlobId, Resolution>
    /** How many backend reads of this caller have failed. */
    ghost var failures: nat
    /** How many times this caller has searched for a key. */
    ghost var searches: nat

    ghost predicate Fixed() {
      src.Valid() && AllPlaced(src, locs) && raw != blocks
    }

    /** Whatever the caches and the memo hold is right. */
    ghost predicate Valid()
      reads this, raw, blocks
    {
      && Fixed() && raw.Valid() && blocks.Valid() && RawTrue(src, raw.entries)
      && BlocksTrue(src, locs, verify, blocks.entries) && MemoTrue(src, locs, resolved)
    }

    constructor (src: Source, verify: bool, rawBytes: nat, blockBytes: nat, ghost locs: set<FileLoc>)
      requires src.Valid() && AllPlaced(src, locs)
      ensures Valid() && this.src == src && this.verify == verify && this.locs == locs && resolved == map[]
    {
      this.src, this.verify, this.locs := src, verify, locs;
      raw := new ByteLru(rawBytes);
      blocks := new ByteLru(blockBytes);
      resolved, failures, searches := map[], 0, 0;
    }

    /** What other threads may do between two lock sections: anything that
        keeps the caches and the memo right and forgets no source, overwriting
        or not. */
    method OtherThreads()
      requires Valid()
      modifies raw, blocks, this`resolved
      ensures Valid() && old(resolved.Keys) <= resolved.Keys
    {
    }

    /** The backend: the bytes of the file from `start`, short only at its
        end, or a failure. */
    method ReadAt(dat: DatId, start: nat, len: nat) returns (r: Result<seq<byte>, ReadError>)
      requires src.Valid() && dat < |src.files|
      modifies this`failures
      ensures r.Ok? ==> r.value == Clip(src.files[dat], start, start + len) && failures == old(failures)
      ensures r.Err? ==> r.error.Other? && failures == old(failures) + 1
    {
      if * {
        failures := failures + 1;
        return Err(Other("backend"));
      }
      r := Ok(Clip(src.files[dat], start, start + len));
    }

    method RawWindow(dat: DatId, idx: nat) returns (r: Result<seq<byte>, ReadError>)
      requires Valid() && dat < |src.dats|
      modifies raw, blocks, this`resolved, this`failures
      ensures Valid() && old(resolved.Keys) <= resolved.Keys
      ensures r.Ok? ==> r.value == Window(Stored(src, dat), idx)
      ensures r.Ok? ==> failures == old(failures)
      ensures r.Err? ==> r.error.Other? && failures == old(failures) + 1
      ensures r.Ok? && |r.value| <= raw.capacity ==> Find(raw.entries, (dat, idx)) == Some(r.value)
    {
      hide BlocksTrue, MemoTrue, Placed;
      OtherThreads();
      ghost var before := raw.entries;
      var hit := raw.Get((dat, idx));
      assert SameContents(before, raw.entries);
      if hit.Some? {
        return Ok(hit.value);
      }
      r := FetchWindow(dat, idx);
    }

    method FetchWindow(dat: DatId, idx: nat) returns (r: Result<seq<byte>, ReadError>)
      requires Valid() && dat < |src.dats|
      modifies raw, blocks, this`resolved, this`failures
      ensures Valid() && old(resolved.Keys) <= resolved.Keys
      ensures r.Ok? ==> r.value == Window(Stored(src, dat), idx)
      ensures r.Ok? ==> failures == old(failures)
      ensures r.Err? ==> r.error.Other? && failures == old(failures) + 1
      ensures r.Ok? && |r.value| <= raw.capacity ==> Find(raw.entries, (dat, idx)) == Some(r.value)
    {
      hide Clip, BlocksTrue, MemoTrue, Placed;
      OtherThreads();
      var key := (dat, idx);
      ghost var before := raw.entries;
      var hit := raw.Get(key);
      assert SameContents(before, raw.entries);
      if hit.Some? {
        return Ok(hit.value);
      }
      var start := WindowStart(idx);
      var len := Min(RAW_WINDOW, Max(src.dats[dat].size - start, 0));
      ClipOfStored(src.files[dat], src.dats[dat].size, start, RAW_WINDOW);
      var bytes := [];
      if len == 0 {
        EmptyClip(src.files[dat], start);
      } else {
        bytes :- ReadAt(dat, start, len);
      }
      OtherThreads();
      RawInsert(src, raw.entries, key, bytes, raw.capacity);
      InsertEffect(raw.entries, key, bytes, raw.capacity);
      raw.Insert(key, bytes);
      r := Ok(bytes);
    }

    /** Stored bytes [start, end) of a dat, assembled from windows. */
    method DatBytes(dat: DatId, start: nat, end: nat) returns (r: Result<seq<byte>, ReadError>)
      requires Valid() && dat < |src.dats| && start <= end
      modifies raw, blocks, this`resolved, this`failures
      ensures Valid() && old(resolved.Keys) <= resolved.Keys
      ensures r.Ok? ==> r.value == Clip(Stored(src, dat), start, end)
      ensures r.Ok? ==> failures == old(failures)
      ensures r.Err? ==> r.error.Other? && failures == old(failures) + 1
    {
      hide Clip, Window, Stored, RawTrue, BlocksTrue, MemoTrue, Placed;
      ghost var content := Stored(src, dat);
      var out: seq<byte> := [];
      var pos := start;
      EmptyClip(content, start);
      while pos < end
        invariant Valid() && failures == old(failures) && old(resolved.Keys) <= resolved.Keys
        invariant start <= pos <= end && out == Clip(content, start, pos)
      {
        var idx := pos / RAW_WINDOW;
        var w :- RawWindow(dat, idx);
        var at := pos - WindowStart(idx);
        if at >= |w| {
          WindowEnd(content, pos);
          PastEnd(content, pos, end);
          ClipSplit(content, start, pos, end);
          break;
        }
        var take := Min(end - pos, |w| - at);
        WindowPart(content, pos, take);
        ClipSplit(content, start, pos, pos + take);
        out := out + w[at..at + take];
        pos := pos + take;
      }
      r := Ok(out);
    }

    /** `resolve_key`: looks, searches and stores in separate lock sections, so
        a store may overwrite what another thread found meanwhile. */
    method ResolveKey(loc: FileLoc, i: nat, stored: seq<byte>) returns (r: Resolution)
      requires Valid() && loc in locs && loc.record.mode.IsEncrypted() && src.Valid() && Placed(src, loc)
      requires Raw(src, loc, i) == Ok(stored)
      modifies raw, blocks, this`resolved, this`searches
      ensures Valid() && old(resolved.Keys) <= resolved.Keys
      ensures Answered(src, locs, loc.source, r)
      ensures loc.source in resolved && resolved[loc.source] == r
      ensures loc.source in old(resolved) ==> searches == old(searches)
    {
      hide BlocksTrue, RawTrue, Contiguous, Resolves, SamplesOf;
      OtherThreads();
      if loc.source in resolved {
        return resolved[loc.source];
      }
      OwnSample(src, locs, loc, i);
      searches := searches + 1;
      r := Search(src.codec, src.keys, src.search, src.dump.entries[loc.source],
                  Sample(loc.record.mode, stored, loc.record.blocks[i].checksum));
      OtherThreads();
      resolved := resolved[loc.source := r];
    }

    /** The key a block needs. */
    method CipherFor(loc: FileLoc, i: nat, stored: seq<byte>) returns (r: Result<Option<AesKey>, ReadError>, ghost found: Resolution)
      requires Valid() && loc in locs && src.Valid() && Placed(src, loc) && Raw(src, loc, i) == Ok(stored)
      modifies raw, blocks, this`resolved, this`searches
      ensures Valid() && old(resolved.Keys) <= resolved.Keys
      ensures Possible(src, locs, loc, found) && r == KeyFor(src.dump, loc, found)
      ensures loc.source in old(resolved) ==> searches == old(searches)
    {
      hide BlocksTrue, RawTrue, MemoTrue, Answered, Raw;
      if !loc.record.mode.IsEncrypted() {
        return Ok(None), Resolution.NoKey(0);
      }
      var answer := ResolveKey(loc, i, stored);
      found := answer;
      var e := src.dump.entries[loc.source];
      match answer
      case NoKey(tried) =>
        r := Err(if tried == 0 then ReadError.NoKey(e.depot) else NoWorkingKey(e.depot, e.crc, tried));
      case _ => r := Ok(Some(answer.key));
    }

    /** Decodes a stored block and makes its record's checks. */
    method CheckedDecode(loc: FileLoc, i: nat, stored: seq<byte>, cipher: Option<AesKey>) returns (r: Result<seq<byte>, ReadError>)
      requires i < |loc.record.blocks|
      ensures r == Checked(src.codec, loc, i, stored, cipher, verify)
    {
      hide Decode, DecodeOwned;
      DecodeMeaning(src.codec, loc.record.mode, stored, cipher);
      var decoded := DecodeOwned(src.codec, loc.record.mode, stored, cipher);
      if decoded.Err? {
        return Err(Format(decoded.error));
      }
      var out := decoded.value;
      if verify {
        var actual := src.codec.checksum(out);
        var expected := loc.record.blocks[i].checksum;
        if actual != expected {
          return Err(Checksum(loc.record.fileId, i, expected, actual));
        }
      }
      var (bs, be) := loc.record.BlockRange(i);
      if |out| != be - bs {
        return Err(BlockSize(loc.record.fileId, i, be - bs, |out|));
      }
      r := Ok(out);
    }

    /** Block `i` of a file. A hit skips the record's own checks. */
    method Block(loc: FileLoc, i: nat) returns (r: Result<seq<byte>, ReadError>)
      requires Valid() && loc in locs
      modifies raw, blocks, this`resolved, this`searches, this`failures
      ensures Valid() && old(resolved.Keys) <= resolved.Keys
      ensures src.Valid() && AllPlaced(src, locs)
      ensures r.Ok? ==> Served(src, locs, verify, loc, i, r.value)
      ensures r.Err? ==> r.error.Other? || Outcome(src, locs, loc, i, verify, r)
      ensures failures == old(failures) + if r.Err? && r.error.Other? then 1 else 0
      ensures r.Ok? && !loc.record.mode.Plain? && |r.value| <= blocks.capacity ==>
        HasBlock(loc, i) && Find(blocks.entries, (loc.dat.value, loc.offsets[i])) == Some(r.value)
      ensures loc.source in old(resolved) ==> searches == old(searches)
    {
      hide BlockTrue, Served, RawTrue, BlocksTrue, MemoTrue, Clip, Possible, Finish;
      if loc.dat.None? {
        var e, blob := src.dump.entries[loc.source], src.dump.ParsedOf(loc.source);
        return Err(MissingDat(e.depot, e.version, if blob.Ok? then blob.value.meta.datCrc else 0));
      }
      var dat := loc.dat.value;
      if i >= |loc.record.blocks| {
        return Err(NoSuchBlock(loc.record.fileId, i, |loc.record.blocks|));
      }
      var key := (dat, loc.offsets[i]);
      OtherThreads();
      ghost var before := blocks.entries;
      var hit := blocks.Get(key);
      TouchedBlocks(src, locs, verify, before, blocks.entries);
      if hit.Some? {
        HitIsServed(src, locs, verify, before, loc, i);
        return Ok(hit.value);
      }
      r := LoadBlock(loc, i);
      if r.Ok? {
        ServedBySelf(src, locs, verify, loc, i, r.value);
      }
    }

    /** What `block` does after a miss. */
    method LoadBlock(loc: FileLoc, i: nat) returns (r: Result<seq<byte>, ReadError>)
      requires Valid() && loc in locs && HasBlock(loc, i)
      modifies raw, blocks, this`resolved, this`searches, this`failures
      ensures Valid() && old(resolved.Keys) <= resolved.Keys
      ensures src.Valid() && AllPlaced(src, locs)
      ensures (r.Err? && r.error.Other?) || Outcome(src, locs, loc, i, verify, r)
      ensures failures == old(failures) + if r.Err? && r.error.Other? then 1 else 0
      ensures r.Ok? && !loc.record.mode.Plain? && |r.value| <= blocks.capacity ==>
        HasBlock(loc, i) && Find(blocks.entries, (loc.dat.value, loc.offsets[i])) == Some(r.value)
      ensures loc.source in old(resolved) ==> searches == old(searches)
    {
      hide BlockTrue, RawTrue, BlocksTrue, MemoTrue, Clip, Checked, KeyFor, Possible;
      var (dat, start, end) := (loc.dat.value, loc.offsets[i], loc.offsets[i + 1]);
      var stored :- DatBytes(dat, start, end);
      if |stored| != end - start {
        return Err(ShortRead(loc.record.fileId, i, end - start, |stored|));
      }
      var cipher, found := CipherFor(loc, i, stored);
      if cipher.Err? {
        assert Finish(src, loc, i, stored, found, verify) == Err(cipher.error);
        return Err(cipher.error);
      }
      r := CheckedDecode(loc, i, stored, cipher.value);
      assert r == Finish(src, loc, i, stored, found, verify);
      if r.Ok? && !loc.record.mode.Plain? {
        Remember(loc, i, r.value);
      }
    }

    /** Puts a decoded block into the cache. A plain one stays out: its bytes
        are in the raw windows already. */
    method Remember(loc: FileLoc, i: nat, out: seq<byte>)
      requires Valid() && loc in locs && HasBlock(loc, i) && !loc.record.mode.Plain?
      requires src.Valid() && AllPlaced(src, locs) && Outcome(src, locs, loc, i, verify, Ok(out))
      modifies raw, blocks, this`resolved
      ensures Valid() && old(resolved.Keys) <= resolved.Keys
      ensures |out| <= blocks.capacity ==> Find(blocks.entries, (loc.dat.value, loc.offsets[i])) == Some(out)
    {
      hide RawTrue, BlocksTrue, MemoTrue, Outcome;
      OtherThreads();
      var key := (loc.dat.value, loc.offsets[i]);
      assert BlockTrue(src, locs, verify, key, out);
      BlocksInsert(src, locs, verify, blocks.entries, key, out, blocks.capacity);
      InsertEffect(blocks.entries, key, out, blocks.capacity);
      blocks.Insert(key, out);
    }

    /** Decoded bytes [offset, offset + len) of a file, as far as it reaches. */
    method Read(loc: FileLoc, offset: nat, len: nat) returns (r: Result<seq<byte>, ReadError>)
      requires Valid() && loc in locs
      modifies raw, blocks, this`resolved, this`searches, this`failures
      ensures Valid() && old(resolved.Keys) <= resolved.Keys
      ensures src.Valid() && AllPlaced(src, locs)
      ensures r.Ok? ==> |r.value| == Max(0, Min(len, loc.record.size - offset)) && ServedBytes(src, locs, verify, loc, offset, r.value)
      ensures r.Ok? && Coherent(src, locs, verify) ==> Serves(src, locs, verify, loc, offset, len, r.value)
      ensures r.Err? ==> r.error.Other? || Blamed(src, locs, verify, loc, offset, Min(offset + len, loc.record.size), r.error)
      ensures failures == old(failures) + if r.Err? && r.error.Other? then 1 else 0
      ensures loc.source in old(resolved) ==> searches == old(searches)
    {
      hide Outcome, Served, RawTrue, BlocksTrue, MemoTrue, Coherent, BytesOf, Under, Placed, View, ServedBytes, Blamed;
      var size := loc.record.size;
      NothingServed(src, locs, verify, loc, offset);
      if offset >= size || len == 0 {
        return Ok([]);
      }
      var end := Min(offset + len, size);
      var out: seq<byte> := [];
      var pos := offset;
      ghost var coherent := Coherent(src, locs, verify);
      ghost var seen: map<nat, seq<byte>> := map[];
      while pos < end
        invariant Valid() && offset <= pos <= end && |out| == pos - offset
        invariant failures == old(failures) && old(resolved.Keys) <= resolved.Keys
        invariant loc.source in old(resolved) ==> searches == old(searches)
        invariant ServedBytes(src, locs, verify, loc, offset, out)
        invariant coherent ==> out == BytesOf(seen, offset, pos) && View(src, locs, verify, loc, seen, offset, pos)
        invariant coherent && pos < end ==> forall k :: k in seen ==> k * 0x8000 + 0x8000 <= pos
      {
        var i := pos / BLOCK_SIZE;
        UnderByte(offset, end, pos);
        var got := Block(loc, i);
        BlameBlock(src, locs, verify, loc, offset, end, i, got);
        var block :- got;
        ServedFits(src, locs, verify, loc, i, block);
        var at := pos % BLOCK_SIZE;
        if at >= |block| {
          BlameShort(src, locs, verify, loc, offset, end, pos, block);
          return Err(NoSuchBlock(loc.record.fileId, i, |loc.record.blocks|));
        }
        var take := Min(end - pos, |block| - at);
        if coherent {
          CoherentServed(src, locs, verify, loc, i, block);
          SeeBlock(src, locs, verify, loc, seen, offset, pos, take, block);
          seen := seen[i := block];
        }
        ServeOn(src, locs, verify, loc, offset, out, take, block);
        out := out + block[at..at + take];
        pos := pos + take;
      }
      r := Ok(out);
    }
  }

  /** Why a read of [a, b) fails: a block under it fails, or one is served that
      is shorter than the block should be. */
  ghost predicate Blamed(src: Source, locs: set<FileLoc>, verify: bool, loc: FileLoc, a: nat, b: nat, e: ReadError)
    requires src.Valid() && AllPlaced(src, locs) && loc in locs
  {
    || (exists i: nat :: Under(a, b, i) && Outcome(src, locs, loc, i, verify, Err(e)))
    || (exists i: nat, v :: Under(a, b, i) && Served(src, locs, verify, loc, i, v) && |v| < BlockLen(loc, i) && e == NoSuchBlockOf(loc, i))
  }

  lemma BlameBlock(src: Source, locs: set<FileLoc>, verify: bool, loc: FileLoc, a: nat, b: nat, i: nat, r: Result<seq<byte>, ReadError>)
    requires src.Valid() && AllPlaced(src, locs) && loc in locs && Under(a, b, i)
    ensures r.Err? && Outcome(src, locs, loc, i, verify, r) ==> Blamed(src, locs, verify, loc, a, b, r.error)
  {
    hide Outcome, Served, Under;
  }

  lemma BlameShort(src: Source, locs: set<FileLoc>, verify: bool, loc: FileLoc, a: nat, b: nat, pos: nat, v: seq<byte>)
    requires src.Valid() && AllPlaced(src, locs) && loc in locs && a <= pos < b <= loc.record.size
    requires Served(src, locs, verify, loc, pos / 0x8000, v) && |v| <= pos % 0x8000
    ensures Blamed(src, locs, verify, loc, a, b, NoSuchBlock(loc.record.fileId, pos / 0x8000, |loc.record.blocks|))
  {
    hide Outcome, Served, Under;
    UnderByte(a, b, pos);
    assert |v| < BlockLen(loc, pos / 0x8000);
  }

  /** The second cannot happen where records that share a key are coherent. */
  lemma CoherentBlame(src: Source, locs: set<FileLoc>, verify: bool, loc: FileLoc, a: nat, b: nat, e: ReadError)
    requires src.Valid() && AllPlaced(src, locs) && loc in locs && Coherent(src, locs, verify)
    requires Blamed(src, locs, verify, loc, a, b, e)
    ensures exists i: nat :: Under(a, b, i) && Outcome(src, locs, loc, i, verify, Err(e))
  {
    hide Outcome, Served, Coherent, Under;
    forall i: nat, v | Served(src, locs, verify, loc, i, v) ensures |v| == BlockLen(loc, i) {
      CoherentServed(src, locs, verify, loc, i, v);
    }
  }

  lemma NothingServed(src: Source, locs: set<FileLoc>, verify: bool, loc: FileLoc, a: nat)
    requires src.Valid() && AllPlaced(src, locs)
    ensures BytesOf(map[], a, a) == [] && View(src, locs, verify, loc, map[], a, a) && ServedBytes(src, locs, verify, loc, a, [])
  {
  }

  lemma ServeOn(src: Source, locs: set<FileLoc>, verify: bool, loc: FileLoc, offset: nat, out: seq<byte>, take: nat, block: seq<byte>)
    requires src.Valid() && AllPlaced(src, locs) && ServedBytes(src, locs, verify, loc, offset, out)
    requires var pos := offset + |out|; Served(src, locs, verify, loc, pos / 0x8000, block) && pos % 0x8000 + take <= |block| <= 0x8000
    ensures var at := (offset + |out|) % 0x8000; ServedBytes(src, locs, verify, loc, offset, out + block[at..at + take])
  {
    hide Served;
    var pos, at := offset + |out|, (offset + |out|) % 0x8000;
    var next := out + block[at..at + take];
    forall k | 0 <= k < |next| ensures ServedByte(src, locs, verify, loc, offset + k, next[k]) {
      if k >= |out| {
        SameBlock(pos, k - |out|);
        assert next[k] == block[at + (k - |out|)];
        assert offset + k == pos + (k - |out|);
      } else {
        assert next[k] == out[k];
      }
    }
  }

  /** Appending part of the next block to what was read so far. */
  lemma SeeBlock(src: Source, locs: set<FileLoc>, verify: bool, loc: FileLoc, seen: map<nat, seq<byte>>,
                 a: nat, pos: nat, take: nat, block: seq<byte>)
    requires src.Valid() && AllPlaced(src, locs) && a <= pos && View(src, locs, verify, loc, seen, a, pos)
    requires var i := pos / 0x8000; i !in seen && Served(src, locs, verify, loc, i, block)
    requires pos % 0x8000 + take <= |block| <= 0x8000
    ensures var i := pos / 0x8000; var at := pos % 0x8000;
      && BytesOf(seen, a, pos) + block[at..at + take] == BytesOf(seen[i := block], a, pos + take)
      && View(src, locs, verify, loc, seen[i := block], a, pos + take)
  {
    hide Served, BytesOf;
    var i := pos / 0x8000;
    var next := seen[i := block];
    forall j: nat | Under(a, pos + take, j) ensures Under(a, pos, j) || j == i {
      UnderSplit(a, pos, pos + take, j);
    }
    BytesAgree(seen, next, a, pos);
    BlockPart(next, pos, take);
    BytesSplit(next, a, pos, pos + take);
  }

  lemma EmptyClip(s: seq<byte>, a: nat)
    ensures Clip(s, a, a) == []
  {
  }

  lemma PastEnd(s: seq<byte>, a: nat, b: nat)
    requires |s| <= a <= b
    ensures Clip(s, a, b) == []
  {
  }
}

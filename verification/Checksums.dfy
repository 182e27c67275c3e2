/** The per-version checksum / file-id table (src/format/checksums.rs): its
    cursor parser, and the layout the module documents as an encoder. */
module Checksums {
  import opened Wrappers
  import opened Bytes

  const MAGIC: u32 := 0x3445_7234

  datatype Mode = Plain | Compressed | CompressedEncrypted | Encrypted {
    predicate IsEncrypted() {
      CompressedEncrypted? || Encrypted?
    }

    function Code(): nat {
      match this
      case Plain => 0
      case Compressed => 1
      case CompressedEncrypted => 2
      case Encrypted => 3
    }
  }

  function ModeFromU32(v: nat): (r: Option<Mode>)
    ensures r.Some? ==> r.value.Code() == v
    ensures r.None? ==> forall m: Mode :: m.Code() != v
  {
    match v
    case 0 => Some(Plain)
    case 1 => Some(Compressed)
    case 2 => Some(CompressedEncrypted)
    case 3 => Some(Encrypted)
    case _ => None
  }

  datatype Block = Block(compressedSize: u32, checksum: u32)

  datatype FileRecord = FileRecord(fileId: u32, mode: Mode, offset: u64, size: u64, blocks: seq<Block>) {
    /** Decompressed byte range covered by block `i`. */
    function BlockRange(i: nat): (nat, int) {
      (i * 0x8000, Min(i * 0x8000 + 0x8000, size))
    }
  }

  // ---- the documented layout ---------------------------------------------

  /** A run of files with consecutive ids; `unused` is the entry's last word. */
  datatype FileBlock = FileBlock(start: u32, unused: u32, files: seq<FileRecord>)

  datatype Table = Table(version: nat, groups: seq<FileBlock>)

  function EncodeBlocks(bs: seq<Block>): (e: seq<byte>)
    ensures |e| == 8 * |bs|
  {
    if bs == [] then []
    else
      var last := bs[|bs| - 1];
      EncodeBlocks(bs[..|bs| - 1]) + (ToLe(last.compressedSize, 4) + ToLe(last.checksum, 4))
  }

  function SizeWidth(version: nat): nat {
    if version == 0 then 4 else 8
  }

  function Packed(f: FileRecord): nat {
    f.mode.Code() * 0x100_0000 + |f.blocks|
  }

  function EncodeFile(version: nat, f: FileRecord): (e: seq<byte>) {
    var w := SizeWidth(version);
    ToLe(f.size, w) + (ToLe(f.offset, w) + (ToLe(Packed(f), 4) + EncodeBlocks(f.blocks)))
  }

  function EncodeFiles(version: nat, fs: seq<FileRecord>): (e: seq<byte>) {
    if fs == [] then [] else EncodeFiles(version, fs[..|fs| - 1]) + EncodeFile(version, fs[|fs| - 1])
  }

  function EncodeBody(version: nat, groups: seq<FileBlock>): (e: seq<byte>) {
    if groups == [] then []
    else EncodeBody(version, groups[..|groups| - 1]) + EncodeFiles(version, groups[|groups| - 1].files)
  }

  function GroupEntry(g: FileBlock, pos: nat): (e: seq<byte>)
    ensures |e| == 16
  {
    ToLe(g.start, 4) + (ToLe(|g.files|, 4) + (ToLe(pos, 4) + ToLe(g.unused, 4)))
  }

  /** The fileblock table; each entry records where its files begin. */
  function GroupTable(version: nat, body: nat, groups: seq<FileBlock>): (e: seq<byte>)
    ensures |e| == 16 * |groups|
  {
    if groups == [] then []
    else
      var before := groups[..|groups| - 1];
      GroupTable(version, body, before) + GroupEntry(groups[|groups| - 1], body + |EncodeBody(version, before)|)
  }

  function Records(groups: seq<FileBlock>): (fs: seq<FileRecord>) {
    if groups == [] then [] else Records(groups[..|groups| - 1]) + groups[|groups| - 1].files
  }

  function MaxBlocks(fs: seq<FileRecord>): (n: nat) {
    if fs == [] then 0 else Max(MaxBlocks(fs[..|fs| - 1]), |fs[|fs| - 1].blocks|)
  }

  function BodyStart(groups: nat): nat {
    0x20 + 0x10 * groups
  }

  function HeaderWords(t: Table): (ws: seq<nat>)
    ensures |ws| == 8
  {
    var fs := Records(t.groups);
    [0x3445_7234, t.version, |t.groups|, |fs|, 0x20, BodyStart(|t.groups|), 0x8000, MaxBlocks(fs)]
  }

  function Encode(t: Table): (e: seq<byte>) {
    Words(HeaderWords(t)) + (GroupTable(t.version, BodyStart(|t.groups|), t.groups)
    + (EncodeBody(t.version, t.groups) + ToLe(0x3445_7234, 4)))
  }

  /** Everything fits the width of its field. */
  ghost predicate FileFits(version: nat, f: FileRecord) {
    |f.blocks| < 0x100_0000 && (version == 0 ==> f.size < U32_LIMIT && f.offset < U32_LIMIT)
  }

  ghost predicate FilesFit(version: nat, start: nat, fs: seq<FileRecord>) {
    forall k :: 0 <= k < |fs| ==> FileFits(version, fs[k]) && fs[k].fileId == start + k
  }

  ghost predicate GroupsFit(version: nat, body: nat, groups: seq<FileBlock>) {
    forall i :: 0 <= i < |groups| ==> GroupFits(version, body, groups[..i], groups[i])
  }

  ghost predicate GroupFits(version: nat, body: nat, before: seq<FileBlock>, g: FileBlock) {
    && |g.files| < U32_LIMIT && FilesFit(version, g.start, g.files)
    && body + |EncodeBody(version, before)| < U32_LIMIT
  }

  ghost predicate Fits(t: Table) {
    && t.version <= 1 && BodyStart(|t.groups|) < U32_LIMIT && |Records(t.groups)| < U32_LIMIT
    && GroupsFit(t.version, BodyStart(|t.groups|), t.groups)
  }

  // ---- what the parser computes, level by level --------------------------

  function BlockAt(t: seq<byte>, pos: nat): Result<Block, FormatError> {
    var size :- U32At(t, pos);
    var sum :- U32At(t, pos + 4);
    Ok(Block(size, sum))
  }

  function BlocksAt(t: seq<byte>, pos: nat, n: nat): (r: Result<seq<Block>, FormatError>)
    ensures r.Ok? ==> |r.value| == n
  {
    if n == 0 then Ok([])
    else
      var before :- BlocksAt(t, pos, n - 1);
      var b :- BlockAt(t, pos + 8 * (n - 1));
      Ok(before + [b])
  }

  /** Size, offset and packed word of a file entry, and where its blocks start. */
  function FileHeadAt(t: seq<byte>, version: nat, pos: nat): (r: Result<(u64, u64, u32, nat), FormatError>)
    ensures r.Ok? ==> r.value.3 == pos + 2 * SizeWidth(version) + 4
  {
    if version == 0 then
      var size :- U32At(t, pos);
      var offset :- U32At(t, pos + 4);
      var packed :- U32At(t, pos + 8);
      Ok((size, offset, packed, pos + 12))
    else
      var size :- U64At(t, pos);
      var offset :- U64At(t, pos + 8);
      var packed :- U32At(t, pos + 16);
      Ok((size, offset, packed, pos + 20))
  }

  function FileAt(t: seq<byte>, version: nat, id: nat, pos: nat): Result<(FileRecord, nat), FormatError> {
    if id >= U32_LIMIT then Err(Malformed("file id overflow"))
    else
      var (size, offset, packed, pos') :- FileHeadAt(t, version, pos);
      match ModeFromU32(packed / 0x100_0000)
      case None => Err(Malformed("mode"))
      case Some(mode) =>
        var blocks :- BlocksAt(t, pos', packed % 0x100_0000);
        Ok((FileRecord(id, mode, offset, size, blocks), pos' + 8 * |blocks|))
  }

  function FilesAt(t: seq<byte>, version: nat, start: nat, pos: nat, n: nat): Result<(seq<FileRecord>, nat), FormatError> {
    if n == 0 then Ok(([], pos))
    else
      var (before, p) :- FilesAt(t, version, start, pos, n - 1);
      var (f, p') :- FileAt(t, version, start + (n - 1), p);
      Ok((before + [f], p'))
  }

  function GroupHeadAt(t: seq<byte>, i: nat): Result<(u32, u32, u32), FormatError> {
    var start :- U32At(t, 0x20 + 0x10 * i);
    var count :- U32At(t, 0x20 + 0x10 * i + 4);
    var offset :- U32At(t, 0x20 + 0x10 * i + 8);
    Ok((start, count, offset))
  }

  function GroupsAt(t: seq<byte>, version: nat, body: nat, n: nat): Result<(seq<FileRecord>, nat), FormatError> {
    if n == 0 then Ok(([], body))
    else
      var (out, pos) :- GroupsAt(t, version, body, n - 1);
      var (start, count, offset) :- GroupHeadAt(t, n - 1);
      if pos != offset then Err(Malformed("fileblock offset"))
      else
        var (fs, pos') :- FilesAt(t, version, start, pos, count);
        Ok((out + fs, pos'))
  }

  function ParseTable(t: seq<byte>): Result<seq<FileRecord>, FormatError> {
    var magic :- U32At(t, 0);
    if magic != MAGIC then Err(Malformed("bad magic"))
    else
      var version :- U32At(t, 4);
      var groups :- U32At(t, 8);
      var items :- U32At(t, 12);
      var offset1 :- U32At(t, 16);
      var offset2 :- U32At(t, 20);
      var blocksize :- U32At(t, 24);
      var largest :- U32At(t, 28);
      if version > 1 then Err(Malformed("unknown version"))
      else if blocksize != 0x8000 then Err(Malformed("block size"))
      else if offset1 != 0x20 || offset2 != BodyStart(groups) then Err(Malformed("unexpected table offsets"))
      else
        var (out, pos) :- GroupsAt(t, version, offset2, groups);
        var footer :- U32At(t, pos);
        if footer != MAGIC then Err(Malformed("bad footer magic"))
        else if |out| != items then Err(Malformed("file count"))
        else if MaxBlocks(out) != largest then Err(Malformed("largest block count mismatch"))
        else Ok(out)
  }

  // ---- the cursor loops --------------------------------------------------

  lemma {:induction false} BlocksFailEarly(t: seq<byte>, pos: nat, m: nat, n: nat)
    requires m <= n && BlocksAt(t, pos, m).Err?
    ensures BlocksAt(t, pos, n) == BlocksAt(t, pos, m)
    decreases n
  {
    if m < n {
      BlocksFailEarly(t, pos, m, n - 1);
    }
  }

  lemma {:induction false} FilesFailEarly(t: seq<byte>, version: nat, start: nat, pos: nat, m: nat, n: nat)
    requires m <= n && FilesAt(t, version, start, pos, m).Err?
    ensures FilesAt(t, version, start, pos, n) == FilesAt(t, version, start, pos, m)
    decreases n
  {
    hide FileAt;
    if m < n {
      FilesFailEarly(t, version, start, pos, m, n - 1);
    }
  }

  lemma {:induction false} GroupsFailEarly(t: seq<byte>, version: nat, body: nat, m: nat, n: nat)
    requires m <= n && GroupsAt(t, version, body, m).Err?
    ensures GroupsAt(t, version, body, n) == GroupsAt(t, version, body, m)
    decreases n
  {
    hide FilesAt, GroupHeadAt;
    if m < n {
      GroupsFailEarly(t, version, body, m, n - 1);
    }
  }

  method ParseBlocks(t: seq<byte>, start: nat, n: nat) returns (r: Result<seq<Block>, FormatError>)
    ensures r == BlocksAt(t, start, n)
  {
    var blocks: seq<Block> := [];
    var pos := start;
    for i := 0 to n
      invariant BlocksAt(t, start, i) == Ok(blocks) && pos == start + 8 * i
    {
      var b := BlockAt(t, pos);
      if b.Err? {
        BlocksFailEarly(t, start, i + 1, n);
        return Err(b.error);
      }
      blocks := blocks + [b.value];
      pos := pos + 8;
    }
    r := Ok(blocks);
  }

  method ParseFile(t: seq<byte>, version: nat, id: nat, begin: nat) returns (r: Result<(FileRecord, nat), FormatError>)
    ensures r == FileAt(t, version, id, begin)
  {
    hide BlocksAt, FileHeadAt;
    if id >= U32_LIMIT {
      return Err(Malformed("file id overflow"));
    }
    var head :- FileHeadAt(t, version, begin);
    var (size, offset, packed, pos) := head;
    var mode := ModeFromU32(packed / 0x100_0000);
    if mode.None? {
      return Err(Malformed("mode"));
    }
    var blocks := ParseBlocks(t, pos, packed % 0x100_0000);
    if blocks.Err? {
      return Err(blocks.error);
    }
    r := Ok((FileRecord(id, mode.value, offset, size, blocks.value), pos + 8 * |blocks.value|));
  }

  method ParseFiles(t: seq<byte>, version: nat, start: u32, begin: nat, count: u32)
    returns (r: Result<(seq<FileRecord>, nat), FormatError>, maxBlocks: nat)
    ensures r == FilesAt(t, version, start, begin, count)
    ensures r.Ok? ==> maxBlocks == MaxBlocks(r.value.0)
  {
    hide FileAt;
    var out: seq<FileRecord> := [];
    var pos := begin;
    maxBlocks := 0;
    for k := 0 to count
      invariant FilesAt(t, version, start, begin, k) == Ok((out, pos)) && maxBlocks == MaxBlocks(out)
    {
      var f := ParseFile(t, version, start + k, pos);
      if f.Err? {
        FilesFailEarly(t, version, start, begin, k + 1, count);
        return Err(f.error), 0;
      }
      MaxBlocksSnoc(out, f.value.0);
      maxBlocks := Max(maxBlocks, |f.value.0.blocks|);
      out := out + [f.value.0];
      pos := f.value.1;
    }
    r := Ok((out, pos));
  }

  lemma MaxBlocksSnoc(fs: seq<FileRecord>, f: FileRecord)
    ensures MaxBlocks(fs + [f]) == Max(MaxBlocks(fs), |f.blocks|)
  {
    assert (fs + [f])[..|fs|] == fs;
  }

  lemma NoBlocks()
    ensures MaxBlocks([]) == 0
  {
  }

  lemma {:induction false} MaxBlocksAppend(a: seq<FileRecord>, b: seq<FileRecord>)
    ensures MaxBlocks(a + b) == Max(MaxBlocks(a), MaxBlocks(b))
  {
    hide MaxBlocks;
    if b == [] {
      assert a + b == a;
      NoBlocks();
    } else {
      var before, f := b[..|b| - 1], b[|b| - 1];
      MaxBlocksAppend(a, before);
      MaxBlocksSnoc(a + before, f);
      MaxBlocksSnoc(before, f);
      assert a + b == (a + before) + [f] && b == before + [f];
    }
  }

  /** The table parser as written: one cursor over the whole buffer. */
  method Parse(t: seq<byte>) returns (r: Result<seq<FileRecord>, FormatError>)
    ensures r == ParseTable(t)
  {
    hide FilesAt, GroupHeadAt, U32At;
    var magic :- U32At(t, 0);
    if magic != MAGIC {
      return Err(Malformed("bad magic"));
    }
    var version :- U32At(t, 4);
    var groups :- U32At(t, 8);
    var items :- U32At(t, 12);
    var offset1 :- U32At(t, 16);
    var offset2 :- U32At(t, 20);
    var blocksize :- U32At(t, 24);
    var largest :- U32At(t, 28);
    if version > 1 {
      return Err(Malformed("unknown version"));
    }
    if blocksize != 0x8000 {
      return Err(Malformed("block size"));
    }
    if offset1 != 0x20 || offset2 != BodyStart(groups) {
      return Err(Malformed("unexpected table offsets"));
    }
    var pos: nat := offset2;
    var out: seq<FileRecord> := [];
    var maxBlocks := 0;
    for fb := 0 to groups
      invariant GroupsAt(t, version, offset2, fb) == Ok((out, pos)) && maxBlocks == MaxBlocks(out)
    {
      var head := GroupHeadAt(t, fb);
      if head.Err? {
        GroupsFailEarly(t, version, offset2, fb + 1, groups);
        return Err(head.error);
      }
      var (start, count, offset) := head.value;
      if pos != offset {
        GroupsFailEarly(t, version, offset2, fb + 1, groups);
        return Err(Malformed("fileblock offset"));
      }
      var files, most := ParseFiles(t, version, start, pos, count);
      if files.Err? {
        GroupsFailEarly(t, version, offset2, fb + 1, groups);
        return Err(files.error);
      }
      MaxBlocksAppend(out, files.value.0);
      maxBlocks := Max(maxBlocks, most);
      out := out + files.value.0;
      pos := files.value.1;
    }
    var footer :- U32At(t, pos);
    if footer != MAGIC {
      return Err(Malformed("bad footer magic"));
    }
    if |out| != items {
      return Err(Malformed("file count"));
    }
    if maxBlocks != largest {
      return Err(Malformed("largest block count mismatch"));
    }
    r := Ok(out);
  }

  // ---- one unfolding of each level ---------------------------------------

  lemma BlocksAtNext(t: seq<byte>, pos: nat, n: nat)
    ensures BlocksAt(t, pos, n + 1) ==
      match BlocksAt(t, pos, n)
      case Err(e) => Err(e)
      case Ok(before) =>
        match BlockAt(t, pos + 8 * n)
        case Err(e) => Err(e)
        case Ok(b) => Ok(before + [b])
  {
    hide BlockAt;
  }

  lemma FilesAtNext(t: seq<byte>, version: nat, start: nat, pos: nat, n: nat)
    ensures FilesAt(t, version, start, pos, n + 1) ==
      match FilesAt(t, version, start, pos, n)
      case Err(e) => Err(e)
      case Ok(before) =>
        match FileAt(t, version, start + n, before.1)
        case Err(e) => Err(e)
        case Ok(f) => Ok((before.0 + [f.0], f.1))
  {
    hide FileAt;
  }

  lemma GroupsAtNext(t: seq<byte>, version: nat, body: nat, n: nat)
    ensures GroupsAt(t, version, body, n + 1) ==
      match GroupsAt(t, version, body, n)
      case Err(e) => Err(e)
      case Ok(before) =>
        match GroupHeadAt(t, n)
        case Err(e) => Err(e)
        case Ok(head) =>
          if before.1 != head.2 then Err(Malformed("fileblock offset"))
          else
            match FilesAt(t, version, head.0, before.1, head.1)
            case Err(e) => Err(e)
            case Ok(files) => Ok((before.0 + files.0, files.1))
  {
    hide FilesAt, GroupHeadAt;
  }

  /** Where every level's recursion starts. */
  lemma EmptyTableParts(t: seq<byte>, version: nat, start: nat, pos: nat)
    ensures BlocksAt(t, pos, 0) == Ok([]) && FilesAt(t, version, start, pos, 0) == Ok(([], pos))
    ensures GroupsAt(t, version, pos, 0) == Ok(([], pos))
    ensures EncodeBlocks([]) == EncodeFiles(version, []) == EncodeBody(version, []) == GroupTable(version, pos, []) == []
    ensures Records([]) == [] && FilesFit(version, start, []) && GroupsFit(version, pos, [])
    ensures pos <= |t| ==> Occurs(t, pos, [])
    ensures 0x20 <= |t| ==> Occurs(t, 0x20, [])
  {
  }

  lemma BlocksSnoc(bs: seq<Block>, b: Block)
    ensures EncodeBlocks(bs + [b]) == EncodeBlocks(bs) + (ToLe(b.compressedSize, 4) + ToLe(b.checksum, 4))
  {
    hide ToLe;
    assert (bs + [b])[..|bs|] == bs;
  }

  // ---- the layout is exactly what is accepted ----------------------------

  lemma BlockOccurs(t: seq<byte>, pos: nat, b: Block)
    ensures BlockAt(t, pos) == Ok(b) <==> Occurs(t, pos, ToLe(b.compressedSize, 4) + ToLe(b.checksum, 4))
  {
    hide ToLe, Occurs, U32At;
    U32Occurs(t, pos, b.compressedSize);
    U32Occurs(t, pos + 4, b.checksum);
    OccursSplit(t, pos, ToLe(b.compressedSize, 4), ToLe(b.checksum, 4));
    if BlockAt(t, pos).Ok? {
      assert U32At(t, pos).Ok? && U32At(t, pos + 4).Ok?;
    }
  }

  lemma {:induction false} BlocksSound(t: seq<byte>, pos: nat, n: nat)
    requires pos <= |t| && BlocksAt(t, pos, n).Ok?
    ensures Occurs(t, pos, EncodeBlocks(BlocksAt(t, pos, n).value))
  {
    hide ToLe, BlockAt, Occurs, BlocksAt, EncodeBlocks;
    if n == 0 {
      EmptyTableParts(t, 0, 0, pos);
    } else {
      BlocksAtNext(t, pos, n - 1);
      BlocksSound(t, pos, n - 1);
      var before, b := BlocksAt(t, pos, n - 1).value, BlockAt(t, pos + 8 * (n - 1)).value;
      BlockOccurs(t, pos + 8 * (n - 1), b);
      BlocksSnoc(before, b);
      OccursSplit(t, pos, EncodeBlocks(before), ToLe(b.compressedSize, 4) + ToLe(b.checksum, 4));
    }
  }

  lemma {:induction false} BlocksComplete(t: seq<byte>, pos: nat, bs: seq<Block>)
    requires Occurs(t, pos, EncodeBlocks(bs))
    ensures BlocksAt(t, pos, |bs|) == Ok(bs)
  {
    hide ToLe, BlockAt, Occurs, BlocksAt, EncodeBlocks;
    if bs == [] {
      EmptyTableParts(t, 0, 0, pos);
    } else {
      var n := |bs| - 1;
      var before, b := bs[..n], bs[n];
      assert bs == before + [b];
      BlocksSnoc(before, b);
      OccursSplit(t, pos, EncodeBlocks(before), ToLe(b.compressedSize, 4) + ToLe(b.checksum, 4));
      BlocksComplete(t, pos, before);
      BlockOccurs(t, pos + 8 * n, b);
      BlocksAtNext(t, pos, n);
    }
  }

  function EncodeHead(version: nat, size: nat, offset: nat, packed: nat): seq<byte> {
    ToLe(size, SizeWidth(version)) + (ToLe(offset, SizeWidth(version)) + ToLe(packed, 4))
  }

  lemma HeadOccurs(t: seq<byte>, version: nat, pos: nat, size: u64, offset: u64, packed: u32)
    ensures FileHeadAt(t, version, pos) == Ok((size, offset, packed, pos + 2 * SizeWidth(version) + 4))
       <==> (version == 0 ==> size < U32_LIMIT && offset < U32_LIMIT)
            && Occurs(t, pos, EncodeHead(version, size, offset, packed))
  {
    hide ToLe, Occurs, U32At, U64At;
    var w := SizeWidth(version);
    OccursSplit(t, pos, ToLe(size, w), ToLe(offset, w) + ToLe(packed, 4));
    OccursSplit(t, pos + w, ToLe(offset, w), ToLe(packed, 4));
    U32Occurs(t, pos, size);
    U32Occurs(t, pos + w, offset);
    U64Occurs(t, pos, size);
    U64Occurs(t, pos + w, offset);
    U32Occurs(t, pos + 2 * w, packed);
    HeadParts(t, version, pos);
  }

  lemma HeadParts(t: seq<byte>, version: nat, pos: nat)
    ensures FileHeadAt(t, version, pos).Ok? ==>
      var (size, offset, packed, _) := FileHeadAt(t, version, pos).value;
      && (if version == 0 then U32At(t, pos) == Ok(size) && U32At(t, pos + 4) == Ok(offset)
          else U64At(t, pos) == Ok(size) && U64At(t, pos + 8) == Ok(offset))
      && U32At(t, pos + 2 * SizeWidth(version)) == Ok(packed)
  {
    hide U32At, U64At;
  }

  lemma PackedParts(mode: Mode, n: nat, packed: nat)
    requires n < 0x100_0000
    ensures packed == mode.Code() * 0x100_0000 + n <==> packed / 0x100_0000 == mode.Code() && packed % 0x100_0000 == n
  {
  }

  lemma FileEncoding(version: nat, f: FileRecord)
    ensures EncodeFile(version, f) == EncodeHead(version, f.size, f.offset, Packed(f)) + EncodeBlocks(f.blocks)
    ensures |EncodeFile(version, f)| == 2 * SizeWidth(version) + 4 + 8 * |f.blocks|
  {
  }

  lemma FileSound(t: seq<byte>, version: nat, id: nat, pos: nat)
    requires FileAt(t, version, id, pos).Ok?
    ensures var (f, p) := FileAt(t, version, id, pos).value;
      f.fileId == id && FileFits(version, f) && Occurs(t, pos, EncodeFile(version, f)) && p == pos + |EncodeFile(version, f)|
  {
    hide EncodeFile, EncodeHead, Occurs, BlocksAt, FileHeadAt, EncodeBlocks;
    var (f, p) := FileAt(t, version, id, pos).value;
    var (size, offset, packed, pos') := FileHeadAt(t, version, pos).value;
    HeadOccurs(t, version, pos, size, offset, packed);
    HeadInside(t, version, pos);
    BlocksSound(t, pos', packed % 0x100_0000);
    PackedParts(f.mode, |f.blocks|, packed);
    FileEncoding(version, f);
    HeadLength(version, f.size, f.offset, packed);
    OccursSplit(t, pos, EncodeHead(version, f.size, f.offset, packed), EncodeBlocks(f.blocks));
  }

  lemma HeadLength(version: nat, size: nat, offset: nat, packed: nat)
    ensures |EncodeHead(version, size, offset, packed)| == 2 * SizeWidth(version) + 4
  {
  }

  lemma HeadInside(t: seq<byte>, version: nat, pos: nat)
    requires FileHeadAt(t, version, pos).Ok?
    ensures FileHeadAt(t, version, pos).value.3 <= |t|
  {
  }

  lemma FileComplete(t: seq<byte>, version: nat, f: FileRecord, pos: nat)
    requires FileFits(version, f) && Occurs(t, pos, EncodeFile(version, f))
    ensures FileAt(t, version, f.fileId, pos) == Ok((f, pos + |EncodeFile(version, f)|))
  {
    hide EncodeFile, EncodeHead, Occurs, BlocksAt, FileHeadAt, EncodeBlocks;
    var packed := Packed(f);
    FileEncoding(version, f);
    HeadLength(version, f.size, f.offset, packed);
    OccursSplit(t, pos, EncodeHead(version, f.size, f.offset, packed), EncodeBlocks(f.blocks));
    HeadOccurs(t, version, pos, f.size, f.offset, packed);
    PackedParts(f.mode, |f.blocks|, packed);
    BlocksComplete(t, pos + 2 * SizeWidth(version) + 4, f.blocks);
    assert ModeFromU32(packed / 0x100_0000) == Some(f.mode);
  }

  lemma FilesSnoc(version: nat, start: nat, fs: seq<FileRecord>, f: FileRecord)
    ensures EncodeFiles(version, fs + [f]) == EncodeFiles(version, fs) + EncodeFile(version, f)
    ensures FilesFit(version, start, fs + [f])
       <==> FilesFit(version, start, fs) && FileFits(version, f) && f.fileId == start + |fs|
  {
    FilesEncodeSnoc(version, fs, f);
    hide EncodeFile, EncodeFiles, FileFits;
    var all := fs + [f];
    assert all[|fs|] == f && forall k :: 0 <= k < |fs| ==> all[k] == fs[k];
  }

  lemma FilesEncodeSnoc(version: nat, fs: seq<FileRecord>, f: FileRecord)
    ensures EncodeFiles(version, fs + [f]) == EncodeFiles(version, fs) + EncodeFile(version, f)
  {
    hide EncodeFile;
    assert (fs + [f])[..|fs|] == fs;
  }

  lemma {:induction false} FilesSound(t: seq<byte>, version: nat, start: nat, pos: nat, n: nat)
    requires pos <= |t| && FilesAt(t, version, start, pos, n).Ok?
    ensures var (fs, p) := FilesAt(t, version, start, pos, n).value;
      |fs| == n && FilesFit(version, start, fs) && Occurs(t, pos, EncodeFiles(version, fs)) && p == pos + |EncodeFiles(version, fs)|
  {
    hide FileAt, EncodeFile, EncodeFiles, Occurs, FileFits, FilesFit, FilesAt;
    if n == 0 {
      EmptyTableParts(t, version, start, pos);
    } else {
      FilesAtNext(t, version, start, pos, n - 1);
      var (before, q) := FilesAt(t, version, start, pos, n - 1).value;
      FilesSound(t, version, start, pos, n - 1);
      FileSound(t, version, start + (n - 1), q);
      var f := FileAt(t, version, start + (n - 1), q).value.0;
      FilesSnoc(version, start, before, f);
      OccursSplit(t, pos, EncodeFiles(version, before), EncodeFile(version, f));
    }
  }

  lemma {:induction false} FilesComplete(t: seq<byte>, version: nat, start: nat, fs: seq<FileRecord>, pos: nat)
    requires FilesFit(version, start, fs) && Occurs(t, pos, EncodeFiles(version, fs))
    ensures FilesAt(t, version, start, pos, |fs|) == Ok((fs, pos + |EncodeFiles(version, fs)|))
  {
    hide FileAt, EncodeFile, EncodeFiles, Occurs, FileFits, FilesFit, FilesAt;
    if fs == [] {
      EmptyTableParts(t, version, start, pos);
    } else {
      var n := |fs|;
      var before, f := fs[..n - 1], fs[n - 1];
      assert fs == before + [f];
      FilesAtNext(t, version, start, pos, n - 1);
      FilesSnoc(version, start, before, f);
      OccursSplit(t, pos, EncodeFiles(version, before), EncodeFile(version, f));
      FilesComplete(t, version, start, before, pos);
      FileComplete(t, version, f, pos + |EncodeFiles(version, before)|);
    }
  }

  /** A fileblock entry is read where it sits; its last word is not looked at. */
  lemma GroupHeadOccurs(t: seq<byte>, i: nat, g: FileBlock, pos: nat)
    requires Occurs(t, 0x20 + 0x10 * i, GroupEntry(g, pos)) && |g.files| < U32_LIMIT && pos < U32_LIMIT
    ensures GroupHeadAt(t, i) == Ok((g.start, |g.files|, pos))
  {
    hide ToLe, Occurs, U32At;
    var b := 0x20 + 0x10 * i;
    OccursSplit(t, b, ToLe(g.start, 4), ToLe(|g.files|, 4) + (ToLe(pos, 4) + ToLe(g.unused, 4)));
    OccursSplit(t, b + 4, ToLe(|g.files|, 4), ToLe(pos, 4) + ToLe(g.unused, 4));
    OccursSplit(t, b + 8, ToLe(pos, 4), ToLe(g.unused, 4));
    U32Occurs(t, b, g.start);
    U32Occurs(t, b + 4, |g.files|);
    U32Occurs(t, b + 8, pos);
  }

  lemma GroupHeadSound(t: seq<byte>, i: nat, files: seq<FileRecord>) returns (g: FileBlock)
    requires GroupHeadAt(t, i).Ok? && 0x20 + 0x10 * i + 16 <= |t| && |files| == GroupHeadAt(t, i).value.1
    ensures g.files == files && g.start == GroupHeadAt(t, i).value.0
    ensures Occurs(t, 0x20 + 0x10 * i, GroupEntry(g, GroupHeadAt(t, i).value.2))
  {
    var b := 0x20 + 0x10 * i;
    assert U32At(t, b + 12).Ok?;
    hide ToLe, Occurs, U32At;
    var (start, count, offset) := GroupHeadAt(t, i).value;
    g := FileBlock(start, U32At(t, b + 12).value, files);
    U32Occurs(t, b, start);
    U32Occurs(t, b + 4, count);
    U32Occurs(t, b + 8, offset);
    U32Occurs(t, b + 12, g.unused);
    OccursSplit(t, b, ToLe(g.start, 4), ToLe(count, 4) + (ToLe(offset, 4) + ToLe(g.unused, 4)));
    OccursSplit(t, b + 4, ToLe(count, 4), ToLe(offset, 4) + ToLe(g.unused, 4));
    OccursSplit(t, b + 8, ToLe(offset, 4), ToLe(g.unused, 4));
  }

  lemma GroupsSnoc(version: nat, body: nat, gs: seq<FileBlock>, g: FileBlock)
    ensures EncodeBody(version, gs + [g]) == EncodeBody(version, gs) + EncodeFiles(version, g.files)
    ensures GroupTable(version, body, gs + [g])
         == GroupTable(version, body, gs) + GroupEntry(g, body + |EncodeBody(version, gs)|)
    ensures Records(gs + [g]) == Records(gs) + g.files
    ensures GroupsFit(version, body, gs + [g]) <==> GroupsFit(version, body, gs) && GroupFits(version, body, gs, g)
  {
    GroupsEncodeSnoc(version, body, gs, g);
    hide EncodeFiles, FilesFit, GroupEntry, EncodeBody, GroupTable, Records, GroupFits;
    var all := gs + [g];
    assert all[|gs|] == g && all[..|gs|] == gs;
    assert forall i :: 0 <= i < |gs| ==> all[i] == gs[i] && all[..i] == gs[..i];
  }

  lemma GroupsEncodeSnoc(version: nat, body: nat, gs: seq<FileBlock>, g: FileBlock)
    ensures EncodeBody(version, gs + [g]) == EncodeBody(version, gs) + EncodeFiles(version, g.files)
    ensures GroupTable(version, body, gs + [g])
         == GroupTable(version, body, gs) + GroupEntry(g, body + |EncodeBody(version, gs)|)
    ensures Records(gs + [g]) == Records(gs) + g.files
  {
    hide EncodeFiles, GroupEntry;
    assert (gs + [g])[..|gs|] == gs;
  }

  lemma {:induction false} GroupsComplete(t: seq<byte>, version: nat, body: nat, groups: seq<FileBlock>)
    requires GroupsFit(version, body, groups)
    requires Occurs(t, 0x20, GroupTable(version, body, groups)) && Occurs(t, body, EncodeBody(version, groups))
    ensures GroupsAt(t, version, body, |groups|) == Ok((Records(groups), body + |EncodeBody(version, groups)|))
  {
    hide FilesAt, GroupHeadAt, EncodeFiles, Occurs, GroupEntry, GroupsFit, EncodeBody, GroupTable, Records, FilesFit;
    hide GroupsAt;
    if groups == [] {
      EmptyTableParts(t, version, 0, body);
    } else {
      var n := |groups|;
      var before, g := groups[..n - 1], groups[n - 1];
      assert groups == before + [g];
      GroupsAtNext(t, version, body, n - 1);
      GroupsSnoc(version, body, before, g);
      var pos := body + |EncodeBody(version, before)|;
      OccursSplit(t, 0x20, GroupTable(version, body, before), GroupEntry(g, pos));
      OccursSplit(t, body, EncodeBody(version, before), EncodeFiles(version, g.files));
      GroupsComplete(t, version, body, before);
      GroupHeadOccurs(t, n - 1, g, pos);
      FilesComplete(t, version, g.start, g.files, pos);
    }
  }

  lemma {:induction false} GroupsSound(t: seq<byte>, version: nat, body: nat, n: nat) returns (groups: seq<FileBlock>)
    requires GroupsAt(t, version, body, n).Ok? && 0x20 + 0x10 * n <= body <= |t|
    ensures |groups| == n && GroupsFit(version, body, groups)
    ensures Occurs(t, 0x20, GroupTable(version, body, groups)) && Occurs(t, body, EncodeBody(version, groups))
    ensures GroupsAt(t, version, body, n) == Ok((Records(groups), body + |EncodeBody(version, groups)|))
  {
    hide FilesAt, GroupHeadAt, EncodeFiles, Occurs, GroupEntry, GroupsFit, EncodeBody, GroupTable, Records, FilesFit;
    hide GroupsAt;
    if n == 0 {
      groups := [];
      EmptyTableParts(t, version, 0, body);
    } else {
      GroupsAtNext(t, version, body, n - 1);
      var before := GroupsSound(t, version, body, n - 1);
      var (out, pos) := GroupsAt(t, version, body, n - 1).value;
      var (start, count, offset) := GroupHeadAt(t, n - 1).value;
      InsideBody(t, body, EncodeBody(version, before));
      FilesSound(t, version, start, pos, count);
      var (fs, p) := FilesAt(t, version, start, pos, count).value;
      var g := GroupHeadSound(t, n - 1, fs);
      groups := before + [g];
      GroupsSnoc(version, body, before, g);
      OccursSplit(t, 0x20, GroupTable(version, body, before), GroupEntry(g, pos));
      OccursSplit(t, body, EncodeBody(version, before), EncodeFiles(version, fs));
    }
  }

  lemma InsideBody(t: seq<byte>, pos: nat, part: seq<byte>)
    requires Occurs(t, pos, part)
    ensures pos + |part| <= |t|
  {
  }

  lemma {:induction false} MaxBlocksFits(fs: seq<FileRecord>)
    requires forall f :: f in fs ==> |f.blocks| < 0x100_0000
    ensures MaxBlocks(fs) < 0x100_0000
  {
    if fs != [] {
      MaxBlocksFits(fs[..|fs| - 1]);
    }
  }

  lemma {:induction false} RecordsFit(version: nat, body: nat, groups: seq<FileBlock>)
    requires GroupsFit(version, body, groups)
    ensures forall f :: f in Records(groups) ==> |f.blocks| < 0x100_0000
  {
    if groups != [] {
      var n := |groups| - 1;
      assert forall i :: 0 <= i < n ==> groups[..n][..i] == groups[..i];
      RecordsFit(version, body, groups[..n]);
      forall f | f in groups[n].files ensures |f.blocks| < 0x100_0000 {
        var k :| 0 <= k < |groups[n].files| && groups[n].files[k] == f;
      }
    }
  }

  lemma TablePieces(t: seq<byte>, tbl: Table)
    ensures Occurs(t, 0, Encode(tbl)) <==>
      && Occurs(t, 0, Words(HeaderWords(tbl)))
      && Occurs(t, 0x20, GroupTable(tbl.version, BodyStart(|tbl.groups|), tbl.groups))
      && Occurs(t, BodyStart(|tbl.groups|), EncodeBody(tbl.version, tbl.groups))
      && Occurs(t, BodyStart(|tbl.groups|) + |EncodeBody(tbl.version, tbl.groups)|, ToLe(MAGIC, 4))
  {
    hide Occurs, Words, HeaderWords, EncodeBody, GroupTable, ToLe;
    var body := EncodeBody(tbl.version, tbl.groups);
    var table := GroupTable(tbl.version, BodyStart(|tbl.groups|), tbl.groups);
    OccursSplit(t, 0, Words(HeaderWords(tbl)), table + (body + ToLe(MAGIC, 4)));
    OccursSplit(t, 0x20, table, body + ToLe(MAGIC, 4));
    OccursSplit(t, BodyStart(|tbl.groups|), body, ToLe(MAGIC, 4));
  }

  lemma PrefixOccurs(e: seq<byte>, rest: seq<byte>)
    ensures Occurs(e + rest, 0, e)
  {
  }

  /** Parsing an encoded table, whatever follows it, gives back its records. */
  lemma EncodeThenParse(tbl: Table, rest: seq<byte>)
    requires Fits(tbl)
    ensures ParseTable(Encode(tbl) + rest) == Ok(Records(tbl.groups))
  {
    var t := Encode(tbl) + rest;
    PrefixOccurs(Encode(tbl), rest);
    hide Encode, Occurs, Words, EncodeBody, GroupTable, U32At, GroupsAt, Records, MaxBlocks, GroupsFit;
    var ws := HeaderWords(tbl);
    TablePieces(t, tbl);
    RecordsFit(tbl.version, BodyStart(|tbl.groups|), tbl.groups);
    MaxBlocksFits(Records(tbl.groups));
    assert ws[..8] == ws;
    WordsOccur(t, 0, ws, 8);
    assert forall i :: 0 <= i < 8 ==> U32At(t, 0 + 4 * i) == Ok(ws[i]);
    assert U32At(t, 0) == Ok(ws[0]) && U32At(t, 4) == Ok(ws[1]) && U32At(t, 8) == Ok(ws[2]) && U32At(t, 12) == Ok(ws[3]);
    assert U32At(t, 16) == Ok(ws[4]) && U32At(t, 20) == Ok(ws[5]) && U32At(t, 24) == Ok(ws[6]) && U32At(t, 28) == Ok(ws[7]);
    GroupsComplete(t, tbl.version, BodyStart(|tbl.groups|), tbl.groups);
    U32Occurs(t, BodyStart(|tbl.groups|) + |EncodeBody(tbl.version, tbl.groups)|, MAGIC);
  }

  /** Every accepted buffer is such an encoding, up to the unused words and
      whatever follows the footer. */
  lemma AcceptedIsEncoding(t: seq<byte>) returns (tbl: Table, rest: seq<byte>)
    requires ParseTable(t).Ok?
    ensures Fits(tbl) && t == Encode(tbl) + rest && ParseTable(t).value == Records(tbl.groups)
  {
    hide Encode, Occurs, Words, EncodeBody, GroupTable, U32At, GroupsAt, Records, MaxBlocks, GroupsFit;
    var version, n := U32At(t, 4).value, U32At(t, 8).value;
    var (out, pos) := GroupsAt(t, version, BodyStart(n), n).value;
    FooterInside(t, version, BodyStart(n), n);
    var groups := GroupsSound(t, version, BodyStart(n), n);
    tbl := Table(version, groups);
    var ws := HeaderWords(tbl);
    assert U32At(t, 4 * 0) == Ok(ws[0]) && U32At(t, 4 * 1) == Ok(ws[1]) && U32At(t, 4 * 2) == Ok(ws[2]);
    assert U32At(t, 4 * 3) == Ok(ws[3]) && U32At(t, 4 * 4) == Ok(ws[4]) && U32At(t, 4 * 5) == Ok(ws[5]);
    assert U32At(t, 4 * 6) == Ok(ws[6]) && U32At(t, 4 * 7) == Ok(ws[7]);
    WordsOccur(t, 0, ws, 8);
    assert ws[..8] == ws;
    U32Occurs(t, pos, MAGIC);
    TablePieces(t, tbl);
    WholePrefix(t, Encode(tbl));
    rest := t[|Encode(tbl)|..];
  }

  lemma WholePrefix(t: seq<byte>, e: seq<byte>)
    requires Occurs(t, 0, e)
    ensures |e| <= |t| && t == e + t[|e|..]
  {
  }

  /** The cursor only moves forward, so the footer keeps the body inside. */
  lemma {:induction false} GroupsForward(t: seq<byte>, version: nat, body: nat, n: nat)
    requires GroupsAt(t, version, body, n).Ok?
    ensures GroupsAt(t, version, body, n).value.1 >= body
  {
    hide FilesAt, GroupHeadAt, GroupsAt;
    if n == 0 {
      EmptyTableParts(t, version, 0, body);
    } else {
      GroupsAtNext(t, version, body, n - 1);
      GroupsForward(t, version, body, n - 1);
      var (out, pos) := GroupsAt(t, version, body, n - 1).value;
      var (start, count, offset) := GroupHeadAt(t, n - 1).value;
      FilesForward(t, version, start, pos, count);
    }
  }

  lemma FileForward(t: seq<byte>, version: nat, id: nat, pos: nat)
    requires FileAt(t, version, id, pos).Ok?
    ensures FileAt(t, version, id, pos).value.1 >= pos
  {
    hide FileHeadAt, BlocksAt;
  }

  lemma {:induction false} FilesForward(t: seq<byte>, version: nat, start: nat, pos: nat, n: nat)
    requires FilesAt(t, version, start, pos, n).Ok?
    ensures FilesAt(t, version, start, pos, n).value.1 >= pos
  {
    hide FileAt, FilesAt;
    if n == 0 {
      EmptyTableParts(t, version, start, pos);
    } else {
      FilesAtNext(t, version, start, pos, n - 1);
      FilesForward(t, version, start, pos, n - 1);
      FileForward(t, version, start + (n - 1), FilesAt(t, version, start, pos, n - 1).value.1);
    }
  }

  lemma FooterInside(t: seq<byte>, version: nat, body: nat, n: nat)
    requires GroupsAt(t, version, body, n).Ok? && U32At(t, GroupsAt(t, version, body, n).value.1).Ok?
    ensures body <= |t|
  {
    GroupsForward(t, version, body, n);
  }

  /** A buffer that starts with an encoded table of these records. */
  ghost predicate Holds(t: seq<byte>, records: seq<FileRecord>) {
    exists tbl, rest :: Fits(tbl) && t == Encode(tbl) + rest && records == Records(tbl.groups)
  }

  /** The parser accepts exactly those. */
  lemma ParseIffHolds(t: seq<byte>, records: seq<FileRecord>)
    ensures ParseTable(t) == Ok(records) <==> Holds(t, records)
  {
    hide ParseTable, Fits, Encode, Records;
    if ParseTable(t).Ok? {
      var tbl, rest := AcceptedIsEncoding(t);
      assert Holds(t, ParseTable(t).value);
    }
    forall tbl, rest | Fits(tbl) && t == Encode(tbl) + rest ensures ParseTable(t) == Ok(Records(tbl.groups)) {
      EncodeThenParse(tbl, rest);
    }
  }
}

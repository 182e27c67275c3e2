/** Per-version file tables: layers of records over the parent's table, kept
    in a count-bounded LRU (src/store.rs). */
module Tables {
  import opened Wrappers
  import opened Bytes
  import opened Checksums
  import opened Depots
  import opened Versions

  /** Where a file's bytes live; `offsets[i + 1]` is the end of block `i`. */
  datatype FileLoc = FileLoc(source: BlobId, dat: Option<DatId>, record: FileRecord, offsets: seq<nat>)

  datatype FileTable = FileTable(own: map<u32, FileLoc>, parent: Option<FileTable>)

  // ---- one layer ---------------------------------------------------------

  /** Blocks are stored back to back from the record's offset. */
  ghost predicate Contiguous(r: FileRecord, n: nat, offsets: seq<nat>)
    requires n <= |r.blocks|
  {
    && |offsets| == n + 1 && offsets[0] == r.offset
    && forall i :: 0 <= i < n ==> offsets[i + 1] == offsets[i] + r.blocks[i].compressedSize
  }

  lemma {:induction false} ContiguousUnique(r: FileRecord, n: nat, a: seq<nat>, b: seq<nat>)
    requires n <= |r.blocks| && Contiguous(r, n, a) && Contiguous(r, n, b)
    ensures a == b
  {
    if n > 0 {
      ContiguousUnique(r, n - 1, a[..n], b[..n]);
      assert forall i :: 0 <= i < n ==> a[i] == a[..n][i] && b[i] == b[..n][i];
      assert a[n - 1 + 1] == a[n - 1] + r.blocks[n - 1].compressedSize;
      assert b[n - 1 + 1] == b[n - 1] + r.blocks[n - 1].compressedSize;
    }
  }

  /** What the index holds under (depot, version, crc). */
  ghost predicate DatIs(d: Dump, depot: u32, version: u32, crc: u32, dat: Option<DatId>) {
    if (depot, version, crc) in d.dats then dat == Some(d.dats[(depot, version, crc)]) else dat.None?
  }

  function DatOf(d: Dump, id: BlobId): Option<DatId>
    requires d.Valid() && id < |d.entries| && d.parsed[id].Ok?
  {
    var e := d.entries[id];
    var key := (e.depot, e.version, d.parsed[id].value.meta.datCrc);
    if key in d.dats then Some(d.dats[key]) else None
  }

  /** `loc` places the last of blob `id`'s first `n` records for file `f`. */
  ghost predicate Places(d: Dump, id: BlobId, n: nat, f: u32, loc: FileLoc)
    requires d.Valid() && id < |d.entries| && d.parsed[id].Ok? && n <= |d.parsed[id].value.records|
  {
    var rs := d.parsed[id].value.records;
    && loc.source == id && DatIs(d, d.entries[id].depot, d.entries[id].version, d.parsed[id].value.meta.datCrc, loc.dat)
    && Contiguous(loc.record, |loc.record.blocks|, loc.offsets)
    && exists i: nat :: LastOf(rs, n, f, i) && loc.record == rs[i]
  }

  ghost predicate LastOf(rs: seq<FileRecord>, n: nat, f: u32, i: nat)
    requires n <= |rs|
  {
    i < n && rs[i].fileId == f && forall j :: i < j < n ==> rs[j].fileId != f
  }

  ghost predicate Mentions(rs: seq<FileRecord>, n: nat, f: u32)
    requires n <= |rs|
  {
    exists i :: 0 <= i < n && rs[i].fileId == f
  }

  /** The layer of blob `id`: exactly its files, each placed by its last record. */
  ghost predicate OwnLayer(d: Dump, id: BlobId, n: nat, own: map<u32, FileLoc>)
    requires d.Valid() && id < |d.entries| && d.parsed[id].Ok? && n <= |d.parsed[id].value.records|
  {
    forall f: u32 :: OwnFile(d, id, n, own, f)
  }

  ghost predicate OwnFile(d: Dump, id: BlobId, n: nat, own: map<u32, FileLoc>, f: u32)
    requires d.Valid() && id < |d.entries| && d.parsed[id].Ok? && n <= |d.parsed[id].value.records|
  {
    && (f in own <==> Mentions(d.parsed[id].value.records, n, f))
    && (f in own ==> Places(d, id, n, f, own[f]))
  }

  ghost predicate IsOwn(d: Dump, id: BlobId, own: map<u32, FileLoc>)
    requires d.Valid()
  {
    id < |d.entries| && d.parsed[id].Ok? && OwnLayer(d, id, |d.parsed[id].value.records|, own)
  }

  /** At most one map is a blob's layer. */
  lemma OwnUnique(d: Dump, id: BlobId, a: map<u32, FileLoc>, b: map<u32, FileLoc>)
    requires d.Valid() && IsOwn(d, id, a) && IsOwn(d, id, b)
    ensures a == b
  {
    var n := |d.parsed[id].value.records|;
    forall f: u32 ensures f in a <==> f in b {
      assert OwnFile(d, id, n, a, f) && OwnFile(d, id, n, b, f);
    }
    forall f: u32 | f in a ensures a[f] == b[f] {
      assert OwnFile(d, id, n, a, f) && OwnFile(d, id, n, b, f);
      assert Places(d, id, n, f, a[f]) && Places(d, id, n, f, b[f]);
      ContiguousUnique(a[f].record, |a[f].record.blocks|, a[f].offsets, b[f].offsets);
    }
  }

  method PlaceBlocks(r: FileRecord) returns (offsets: seq<nat>)
    ensures Contiguous(r, |r.blocks|, offsets)
  {
    var off := r.offset;
    offsets := [off];
    for i := 0 to |r.blocks|
      invariant Contiguous(r, i, offsets) && off == offsets[i]
    {
      off := off + r.blocks[i].compressedSize;
      offsets := offsets + [off];
    }
  }

  method OwnTable(d: Dump, id: BlobId, parent: Option<FileTable>) returns (r: Result<FileTable, ReadError>)
    requires d.Valid()
    ensures r.Ok? ==> IsOwn(d, id, r.value.own) && r.value.parent == parent
    ensures r.Err? ==> d.ParsedOf(id) == Err(r.error)
  {
    var blob :- d.ParsedOf(id);
    var own: map<u32, FileLoc> := map[];
    for k := 0 to |blob.records|
      invariant OwnLayer(d, id, k, own)
    {
      var rec := blob.records[k];
      var offsets := PlaceBlocks(rec);
      ghost var before := own;
      own := own[rec.fileId := FileLoc(id, DatOf(d, id), rec, offsets)];
      OwnGrows(d, id, k, before, own);
    }
    r := Ok(FileTable(own, parent));
  }

  /** `own` is `before` with record `k` placed. */
  ghost predicate AddsRecord(d: Dump, id: BlobId, k: nat, before: map<u32, FileLoc>, own: map<u32, FileLoc>)
    requires d.Valid() && id < |d.entries| && d.parsed[id].Ok? && k < |d.parsed[id].value.records|
  {
    var rec := d.parsed[id].value.records[k];
    && rec.fileId in own && own == before[rec.fileId := own[rec.fileId]]
    && own[rec.fileId].source == id && own[rec.fileId].dat == DatOf(d, id) && own[rec.fileId].record == rec
    && Contiguous(rec, |rec.blocks|, own[rec.fileId].offsets)
  }

  lemma FileGrows(d: Dump, id: BlobId, k: nat, before: map<u32, FileLoc>, own: map<u32, FileLoc>, f: u32)
    requires d.Valid() && id < |d.entries| && d.parsed[id].Ok? && k < |d.parsed[id].value.records|
    requires OwnFile(d, id, k, before, f) && AddsRecord(d, id, k, before, own)
    ensures OwnFile(d, id, k + 1, own, f)
  {
    var rs := d.parsed[id].value.records;
    if f == rs[k].fileId {
      assert LastOf(rs, k + 1, f, k);
    } else if f in before {
      var i: nat :| LastOf(rs, k, f, i) && before[f].record == rs[i];
      assert LastOf(rs, k + 1, f, i);
    }
  }

  lemma OwnGrows(d: Dump, id: BlobId, k: nat, before: map<u32, FileLoc>, own: map<u32, FileLoc>)
    requires d.Valid() && id < |d.entries| && d.parsed[id].Ok? && k < |d.parsed[id].value.records|
    requires OwnLayer(d, id, k, before) && AddsRecord(d, id, k, before, own)
    ensures OwnLayer(d, id, k + 1, own)
  {
    hide OwnFile, AddsRecord;
    var n := k + 1;
    forall f: u32 ensures OwnFile(d, id, n, own, f) {
      FileGrows(d, id, k, before, own, f);
    }
  }

  ghost function OffsetsOf(r: FileRecord, n: nat): (o: seq<nat>)
    requires n <= |r.blocks|
    ensures Contiguous(r, n, o)
  {
    if n == 0 then [r.offset]
    else var o := OffsetsOf(r, n - 1); o + [o[n - 1] + r.blocks[n - 1].compressedSize]
  }

  ghost function OwnUpTo(d: Dump, id: BlobId, n: nat): (own: map<u32, FileLoc>)
    requires d.Valid() && id < |d.entries| && d.parsed[id].Ok? && n <= |d.parsed[id].value.records|
  {
    if n == 0 then map[]
    else
      var rec := d.parsed[id].value.records[n - 1];
      OwnUpTo(d, id, n - 1)[rec.fileId := FileLoc(id, DatOf(d, id), rec, OffsetsOf(rec, |rec.blocks|))]
  }

  /** The layer as a value (empty for a blob that does not parse). */
  ghost function Own(d: Dump, id: BlobId): map<u32, FileLoc>
    requires d.Valid()
  {
    if d.ParsedOf(id).Ok? then OwnUpTo(d, id, |d.parsed[id].value.records|) else map[]
  }

  lemma {:induction false} OwnUpToIsLayer(d: Dump, id: BlobId, n: nat)
    requires d.Valid() && id < |d.entries| && d.parsed[id].Ok? && n <= |d.parsed[id].value.records|
    ensures OwnLayer(d, id, n, OwnUpTo(d, id, n))
  {
    if n > 0 {
      hide OwnLayer;
      OwnUpToIsLayer(d, id, n - 1);
      OwnGrows(d, id, n - 1, OwnUpTo(d, id, n - 1), OwnUpTo(d, id, n));
    }
  }

  lemma OwnIs(d: Dump, id: BlobId, own: map<u32, FileLoc>)
    requires d.Valid() && id < |d.entries| && d.parsed[id].Ok?
    ensures IsOwn(d, id, own) <==> own == Own(d, id)
  {
    OwnUpToIsLayer(d, id, |d.parsed[id].value.records|);
    if IsOwn(d, id, own) {
      OwnUnique(d, id, own, Own(d, id));
    }
  }

  /** The dump's dat index is the one loading builds from this list. */
  ghost predicate DatsIndexed(d: Dump, dats: seq<DatEntry>) {
    forall depot: u32, version: u32, crc: u32 ::
      BestDat(dats, |dats|, depot, version, crc,
              if (depot, version, crc) in d.dats then Some(d.dats[(depot, version, crc)]) else None)
  }

  // ---- lookups -----------------------------------------------------------

  function Lookup(t: FileTable, f: u32): Option<FileLoc>
    decreases t
  {
    if f in t.own then Some(t.own[f])
    else match t.parent case None => None case Some(p) => Lookup(p, f)
  }

  /** `get` climbs the layers until one has the file. */
  method Get(t: FileTable, f: u32) returns (r: Option<FileLoc>)
    ensures r == Lookup(t, f)
  {
    var cur := t;
    while f !in cur.own
      invariant Lookup(cur, f) == Lookup(t, f)
      decreases cur
    {
      if cur.parent.None? {
        return None;
      }
      cur := cur.parent.value;
    }
    r := Some(cur.own[f]);
  }

  /** The record of the nearest blob on a root-first path that has one. */
  ghost function Nearest(d: Dump, p: seq<BlobId>, f: u32): Option<FileLoc>
    requires d.Valid()
  {
    if p == [] then None
    else
      var b := p[|p| - 1];
      if f in Own(d, b) then Some(Own(d, b)[f]) else Nearest(d, p[..|p| - 1], f)
  }

  // ---- what every table is -----------------------------------------------

  /** A blob's records over nothing, or over such a table of its parent. */
  ghost predicate WellLayered(d: Dump, b: BlobId, t: FileTable)
    requires d.Valid()
    decreases t
  {
    && IsOwn(d, b, t.own)
    && match t.parent
       case None => true
       case Some(p) =>
         && ParentOf(d, b).Ok? && ParentOf(d, b).value.Some?
         && WellLayered(d, ParentOf(d, b).value.value, p)
  }

  /** Which dat a location names: the best one listed for its source's depot,
      version and the crc its blob gives for the dat; none exactly when no dat
      of that identity is listed. */
  lemma {:induction false} LocatedDat(d: Dump, dats: seq<DatEntry>, b: BlobId, t: FileTable, f: u32)
    requires d.Valid() && DatsIndexed(d, dats) && WellLayered(d, b, t) && Lookup(t, f).Some?
    ensures var loc := Lookup(t, f).value;
      && loc.source < |d.entries| && d.parsed[loc.source].Ok?
      && BestDat(dats, |dats|, d.entries[loc.source].depot, d.entries[loc.source].version,
                 d.parsed[loc.source].value.meta.datCrc, loc.dat)
    decreases t
  {
    if f in t.own {
      assert OwnFile(d, b, |d.parsed[b].value.records|, t.own, f);
    } else {
      LocatedDat(d, dats, ParentOf(d, b).value.value, t.parent.value, f);
    }
  }

  /** Well layered all the way down to a root. */
  ghost predicate Whole(d: Dump, b: BlobId, t: FileTable)
    requires d.Valid()
    decreases t
  {
    && IsOwn(d, b, t.own) && ParentOf(d, b).Ok?
    && match t.parent
       case None => ParentOf(d, b).value.None?
       case Some(p) => ParentOf(d, b).value.Some? && Whole(d, ParentOf(d, b).value.value, p)
  }

  lemma PathParses(d: Dump, p: seq<BlobId>, id: BlobId)
    requires d.Valid() && Path(d, p, id) && ParentOf(d, p[0]).Ok?
    ensures forall i :: 0 <= i < |p| ==> ParentOf(d, p[i]).Ok? && d.ParsedOf(p[i]).Ok?
  {
    forall i | 0 <= i < |p| ensures ParentOf(d, p[i]).Ok? {
      if i > 0 {
        assert IsParent(d, p[i - 1], p[i - 1 + 1]);
      }
    }
  }

  /** A whole table answers with the nearest ancestor's record. */
  lemma {:induction false} WholeIsNearest(d: Dump, p: seq<BlobId>, b: BlobId, t: FileTable, f: u32)
    requires d.Valid() && Lineage(d, p, b) && Whole(d, b, t)
    ensures Lookup(t, f) == Nearest(d, p, f)
    decreases |p|
  {
    OwnIs(d, b, t.own);
    if |p| > 1 {
      assert IsParent(d, p[|p| - 2], p[|p| - 2 + 1]);
      PathPrefix(d, p, b, |p| - 1);
      WholeIsNearest(d, p[..|p| - 1], p[|p| - 2], t.parent.value, f);
    } else {
      assert p[..0] == [];
    }
  }

  // ---- folding a chain with an empty cache -------------------------------

  ghost function Fold(d: Dump, c: seq<BlobId>): (t: FileTable)
    requires d.Valid() && |c| > 0
  {
    var b := c[|c| - 1];
    FileTable(Own(d, b), if |c| == 1 then None else Some(Fold(d, c[..|c| - 1])))
  }

  ghost function Depth(t: FileTable): nat
    decreases t
  {
    match t.parent case None => 1 case Some(p) => 1 + Depth(p)
  }

  lemma {:induction false} FoldDepth(d: Dump, c: seq<BlobId>)
    requires d.Valid() && |c| > 0
    ensures Depth(Fold(d, c)) == |c|
  {
    if |c| > 1 {
      FoldDepth(d, c[..|c| - 1]);
    }
  }

  lemma ChainParses(d: Dump, id: BlobId, c: seq<BlobId>)
    requires d.Valid() && ChainOf(d, id) == Ok(c)
    ensures IsChain(d, id, c)
    ensures forall i :: 0 <= i < |c| ==> d.ParsedOf(c[i]).Ok?
  {
    ChainMeaning(d, id);
    PathParses(d, c, id);
  }

  /** `t` is what an empty cache would give for `b`. */
  ghost predicate IsFresh(d: Dump, b: BlobId, t: FileTable)
    requires d.Valid()
  {
    var r := ChainOf(d, b);
    r.Ok? && |r.value| > 0 && t == Fold(d, r.value)
  }

  /** Every walk ends at a root or at a blob that names itself as parent:
      no longer cycle, and nothing cut off at 100,001 blobs. */
  ghost predicate Settled(d: Dump)
    requires d.Valid()
  {
    forall id, c :: IsChain(d, id, c) ==> ParentOf(d, c[0]) == Ok(None) || IsParent(d, c[0], c[0])
  }

  lemma SettledPrefix(d: Dump, id: BlobId, c: seq<BlobId>, k: nat)
    requires d.Valid() && Settled(d) && IsChain(d, id, c) && 0 < k <= |c|
    ensures ChainOf(d, c[k - 1]) == Ok(c[..k])
  {
    PathPrefix(d, c, id, k);
    assert c[..k][0] == c[0];
    assert IsChain(d, c[k - 1], c[..k]);
    ChainComplete(d, c[k - 1], c[..k]);
  }

  /** What holds of every table ever cached for `b`. */
  ghost predicate Good(d: Dump, b: BlobId, t: FileTable)
    requires d.Valid()
  {
    && WellLayered(d, b, t)
    && (NoLongLineage(d) && HasLineage(d, b) ==> Whole(d, b, t))
    && (Settled(d) ==> IsFresh(d, b, t))
  }

  /** One more layer on a good table of the previous blob of a chain. */
  lemma LayerIsGood(d: Dump, id: BlobId, c: seq<BlobId>, k: nat, parent: Option<FileTable>, t: FileTable)
    requires d.Valid() && ChainOf(d, id) == Ok(c) && k < |c|
    requires parent.None? <==> k == 0
    requires parent.Some? ==> Good(d, c[k - 1], parent.value)
    requires IsOwn(d, c[k], t.own) && t.parent == parent
    ensures Good(d, c[k], t)
  {
    ChainParses(d, id, c);
    LayerIsWhole(d, id, c, k, parent, t);
    if Settled(d) {
      LayerIsFresh(d, id, c, k, parent, t);
    }
    if k > 0 {
      assert IsParent(d, c[k - 1], c[k - 1 + 1]);
    }
  }

  lemma LayerIsFresh(d: Dump, id: BlobId, c: seq<BlobId>, k: nat, parent: Option<FileTable>, t: FileTable)
    requires d.Valid() && Settled(d) && IsChain(d, id, c) && k < |c|
    requires forall i :: 0 <= i < |c| ==> d.ParsedOf(c[i]).Ok?
    requires parent.None? <==> k == 0
    requires parent.Some? ==> IsFresh(d, c[k - 1], parent.value)
    requires IsOwn(d, c[k], t.own) && t.parent == parent
    ensures IsFresh(d, c[k], t)
  {
    SettledPrefix(d, id, c, k + 1);
    assert c[..k + 1][k] == c[k];
    OwnIs(d, c[k], t.own);
    if k > 0 {
      SettledPrefix(d, id, c, k);
      assert c[..k + 1][..k] == c[..k];
    }
  }

  lemma LayerIsWhole(d: Dump, id: BlobId, c: seq<BlobId>, k: nat, parent: Option<FileTable>, t: FileTable)
    requires d.Valid() && IsChain(d, id, c) && k < |c|
    requires parent.None? <==> k == 0
    requires parent.Some? && NoLongLineage(d) && HasLineage(d, c[k - 1]) ==> Whole(d, c[k - 1], parent.value)
    requires IsOwn(d, c[k], t.own) && t.parent == parent
    ensures NoLongLineage(d) && HasLineage(d, c[k]) ==> Whole(d, c[k], t)
  {
    if NoLongLineage(d) && HasLineage(d, c[k]) {
      var p :| Lineage(d, p, c[k]);
      if k == 0 {
        ChainStartsAtRoot(d, id, c, p);
      } else {
        assert IsParent(d, c[k - 1], c[k - 1 + 1]);
        assert |p| > 1 && IsParent(d, p[|p| - 2], p[|p| - 2 + 1]);
        PathPrefix(d, p, c[k], |p| - 1);
        assert Lineage(d, p[..|p| - 1], c[k - 1]);
      }
    }
  }
}

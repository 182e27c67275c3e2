/** Reading a file of a version: its table says where the bytes are, the store
    serves them (`locate` and `read` in src/tree.rs and src/store.rs). */
module VersionReads {
  import opened Wrappers
  import opened Bytes
  import opened Depots
  import opened Versions
  import opened Tables
  import opened TableCache
  import opened Reads

  /** The bytes of [offset, min(offset + len, size)) as the file's blocks decode
      directly. */
  function DirectBytes(src: Source, loc: FileLoc, offset: nat, len: nat): seq<byte>
    requires src.Valid() && Placed(src, loc)
  {
    var end := Min(offset + len, loc.record.size);
    if offset < end then BytesOf(DirectBlocks(src, loc, end), offset, end) else []
  }

  /** In every run of any number of table builders, and whatever the readers'
      caches hold: a file read through a version's table is that of the
      nearest version on the path to the root that has a record for it. */
  lemma ReadIsNearest(src: Source, locs: set<FileLoc>, verify: bool, steps: seq<Step>,
                      b: BlobId, t: FileTable, p: seq<BlobId>, f: u32, offset: nat, len: nat, out: seq<byte>)
    requires src.Valid() && AllPlaced(src, locs) && Coherent(src, locs, verify)
    requires NoLongLineage(src.dump) && Lineage(src.dump, p, b) && (b, t) in Run(src.dump, steps).answers
    requires Lookup(t, f).Some? && Lookup(t, f).value in locs && SteadyKey(src, locs, Lookup(t, f).value)
    requires Serves(src, locs, verify, Lookup(t, f).value, offset, len, out)
    ensures Nearest(src.dump, p, f).Some? && Placed(src, Nearest(src.dump, p, f).value)
    ensures out == DirectBytes(src, Nearest(src.dump, p, f).value, offset, len)
  {
    hide Run, Nearest, Serves, Coherent, SteadyKey, Placed;
    TableIsNearest(src.dump, steps, b, t, p, f);
    SteadyRead(src, locs, verify, Lookup(t, f).value, offset, len, out);
  }

  /** What a good table of a blob with a complete path answers. */
  lemma GoodIsNearest(d: Dump, p: seq<BlobId>, id: BlobId, t: FileTable, f: u32)
    requires d.Valid() && NoLongLineage(d) && Lineage(d, p, id) && Good(d, id, t)
    ensures Lookup(t, f) == Nearest(d, p, f)
  {
    assert HasLineage(d, id);
    WholeIsNearest(d, p, id, t, f);
  }

  lemma BuildSucceeds(d: Dump, p: seq<BlobId>, id: BlobId, e: ReadError)
    requires d.Valid() && NoLongLineage(d) && Lineage(d, p, id)
    ensures !BuildFails(d, id, e)
  {
    LineageIsChain(d, p, id);
    BuildFailsWithChain(d, id, e);
  }

  /** Locates the file in the version, then reads it. */
  method ReadFile(tables: TableStore, store: Store, id: BlobId, f: u32, offset: nat, len: nat, ghost p: seq<BlobId>)
    returns (r: Result<seq<byte>, ReadError>)
    requires tables.Valid() && store.Valid() && store.src.dump == tables.dump
    requires NoLongLineage(tables.dump) && Lineage(tables.dump, p, id)
    requires Nearest(tables.dump, p, f).Some? ==> Nearest(tables.dump, p, f).value in store.locs
    modifies tables, store.raw, store.blocks, store`resolved, store`failures, store`searches
    ensures tables.Valid() && store.Valid() && store.src.Valid() && AllPlaced(store.src, store.locs)
    ensures Nearest(tables.dump, p, f).None? ==> r == Err(MissingRecord(f))
    ensures r.Ok? ==>
      var loc := Nearest(tables.dump, p, f).value;
      && ServedBytes(store.src, store.locs, store.verify, loc, offset, r.value)
      && (Coherent(store.src, store.locs, store.verify) && SteadyKey(store.src, store.locs, loc) ==>
            r.value == DirectBytes(store.src, loc, offset, len))
    ensures r.Err? && Nearest(tables.dump, p, f).Some? ==>
      var loc := Nearest(tables.dump, p, f).value;
      (r.error.Other? && store.failures > old(store.failures)) || Blamed(store.src, store.locs, store.verify, loc, offset, Min(offset + len, loc.record.size), r.error)
  {
    hide Good, Nearest, Serves, ServedBytes, Coherent, SteadyKey, Placed, Blamed, BuildFails, Lookup;
    forall t | Good(tables.dump, id, t) ensures Lookup(t, f) == Nearest(tables.dump, p, f) {
      GoodIsNearest(tables.dump, p, id, t, f);
    }
    forall e ensures !BuildFails(tables.dump, id, e) {
      BuildSucceeds(tables.dump, p, id, e);
    }
    var loc :- tables.Locate(id, f);
    r := store.Read(loc, offset, len);
    if r.Ok? && Coherent(store.src, store.locs, store.verify) && SteadyKey(store.src, store.locs, loc) {
      SteadyRead(store.src, store.locs, store.verify, loc, offset, len, r.value);
    }
  }
}

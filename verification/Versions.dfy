/** Version chains: which blob is the parent of which, and the walk from a
    blob back to its root (`parent` and `chain` in src/store.rs). */
module Versions {
  import opened Wrappers
  import opened Bytes
  import opened Depots
  import opened ParsedBlobs
  import opened Seqs

  /** Everything a read can fail with. */
  datatype ReadError =
    | MissingRecord(missing: u32)
    | MissingDat(depot: u32, version: u32, crc: u32)
    | NoKey(keyDepot: u32)
    | NoWorkingKey(blobDepot: u32, blobCrc: u32, tried: nat)
    | Checksum(fileId: u32, block: nat, expected: u32, actual: nat)
    | ShortRead(shortId: u32, shortBlock: nat, want: nat, got: nat)
    | NoSuchBlock(absentId: u32, absent: nat, blocks: nat)
    | BlockSize(sizeId: u32, sizeBlock: nat, wantSize: int, gotSize: nat)
    | Format(error: FormatError)
    | Other(message: string)

  /** The dump as loaded: its blobs, the blobs of each depot, the dat of each
      (depot, version, crc), and what each blob parses to. */
  datatype Dump = Dump(
    entries: seq<BlobEntry>,
    depots: map<u32, seq<BlobId>>,
    dats: map<(u32, u32, u32), DatId>,
    parsed: seq<Result<ParsedBlob, ReadError>>)
  {
    ghost predicate Valid() {
      && |parsed| == |entries|
      && forall d, i :: d in depots && 0 <= i < |depots[d]| ==> depots[d][i] < |entries|
    }

    function ParsedOf(id: BlobId): Result<ParsedBlob, ReadError> {
      if id < |parsed| then parsed[id] else Err(Other("no such blob"))
    }

    function BlobsWithVersion(depot: u32, version: u32): seq<BlobId>
      requires Valid()
    {
      if depot in depots then WithVersion(entries, depots[depot], version) else []
    }
  }

  /** The blob with the recorded (version, crc), else the only blob of that
      version, else none. */
  function ParentOf(d: Dump, id: BlobId): (r: Result<Option<BlobId>, ReadError>)
    requires d.Valid()
    ensures r.Ok? && r.value.Some? ==> r.value.value < |d.entries|
    ensures r.Ok? ==> id < |d.entries| && d.parsed[id].Ok?
  {
    var blob :- d.ParsedOf(id);
    match blob.meta.prev
    case None => Ok(None)
    case Some(prev) =>
      var depot := d.entries[id].depot;
      match FindBlob(d.entries, depot, prev.0, prev.1)
      case Some(p) => Ok(Some(p))
      case None =>
        var candidates := d.BlobsWithVersion(depot, prev.0);
        if |candidates| == 1 then
          assert candidates[0] in candidates;
          Ok(Some(candidates[0]))
        else Ok(None)
  }

  predicate IsParent(d: Dump, p: BlobId, id: BlobId)
    requires d.Valid()
  {
    ParentOf(d, id) == Ok(Some(p))
  }

  /** The only blob of a group with this version. */
  ghost predicate OnlyOfVersion(d: Dump, group: seq<BlobId>, version: u32, p: BlobId)
    requires forall i :: 0 <= i < |group| ==> group[i] < |d.entries|
  {
    p in group && forall q :: q in group ==> (d.entries[q].version == version <==> q == p)
  }

  lemma {:induction false} WithVersionDistinct(entries: seq<BlobEntry>, blobs: seq<BlobId>, version: u32)
    requires Distinct(blobs) && forall i :: 0 <= i < |blobs| ==> blobs[i] < |entries|
    ensures Distinct(WithVersion(entries, blobs, version))
  {
    if blobs != [] {
      WithVersionDistinct(entries, blobs[1..], version);
      var rest := WithVersion(entries, blobs[1..], version);
      forall j | 0 <= j < |rest| ensures rest[j] != blobs[0] {
        assert rest[j] in rest;
      }
    }
  }

  /** The recorded predecessor of a blob that parses. */
  ghost predicate Records(d: Dump, id: BlobId, version: u32, crc: u32)
    requires d.Valid()
  {
    id < |d.entries| && d.parsed[id].Ok? && d.parsed[id].value.meta.prev == Some((version, crc))
  }

  /** The blob says that it follows `version`. */
  ghost predicate Follows(d: Dump, id: BlobId, version: u32)
    requires d.Valid()
  {
    exists crc: u32 :: Records(d, id, version, crc)
  }

  /** `p` is the right parent of a blob of `depot` that records (version, crc):
      the last blob of that identity, and only if there is none, the depot's
      only blob of that version. */
  ghost predicate RightParent(d: Dump, depot: u32, version: u32, crc: u32, p: BlobId)
    requires d.Valid()
  {
    if exists i :: 0 <= i < |d.entries| && IsBlob(d.entries[i], depot, version, crc)
    then p < |d.entries| && IsBlob(d.entries[p], depot, version, crc)
         && forall i :: p < i < |d.entries| ==> !IsBlob(d.entries[i], depot, version, crc)
    else depot in d.depots && OnlyOfVersion(d, d.depots[depot], version, p)
  }

  /** Each depot lists its own blobs, each once. */
  ghost predicate Grouped(d: Dump)
    requires d.Valid()
  {
    forall g :: g in d.depots ==> Distinct(d.depots[g]) && forall b :: b in d.depots[g] ==> d.entries[b].depot == g
  }

  /** Exactly when `p` is the parent: the blob parses, records a predecessor,
      and `p` is the right one for it. A blob that records none has none, and
      only a blob that does not parse fails. */
  lemma ParentMeaning(d: Dump, id: BlobId, p: BlobId)
    requires d.Valid() && Grouped(d)
    ensures IsParent(d, p, id) <==>
      exists version: u32, crc: u32 :: Records(d, id, version, crc) && RightParent(d, d.entries[id].depot, version, crc, p)
    ensures id < |d.entries| && d.parsed[id].Ok? && d.parsed[id].value.meta.prev.None? ==> ParentOf(d, id) == Ok(None)
    ensures ParentOf(d, id).Err? <==> id >= |d.entries| || d.parsed[id].Err?
    ensures id < |d.entries| && d.parsed[id].Err? ==> ParentOf(d, id) == Err(d.parsed[id].error)
  {
    hide OnlyOfVersion, WithVersion, IsBlob;
    if id < |d.entries| && d.parsed[id].Ok? && d.parsed[id].value.meta.prev.Some? {
      var depot := d.entries[id].depot;
      var (version, crc) := d.parsed[id].value.meta.prev.value;
      assert Records(d, id, version, crc);
      if depot in d.depots {
        SoleCandidate(d, d.depots[depot], version, p);
      }
      assert IsParent(d, p, id) <==> RightParent(d, depot, version, crc, p);
    }
  }

  /** Every parent is of the child's depot and of the version it records. */
  lemma ParentIsRecorded(d: Dump, p: BlobId, id: BlobId)
    requires d.Valid() && Grouped(d) && IsParent(d, p, id)
    ensures p < |d.entries| && d.entries[p].depot == d.entries[id].depot
    ensures Follows(d, id, d.entries[p].version)
  {
    hide ParentOf;
    ParentMeaning(d, id, p);
    var version: u32, crc: u32 :| Records(d, id, version, crc) && RightParent(d, d.entries[id].depot, version, crc, p);
    assert d.entries[p].version == version;
  }

  lemma SoleCandidate(d: Dump, group: seq<BlobId>, version: u32, p: BlobId)
    requires Distinct(group) && forall i :: 0 <= i < |group| ==> group[i] < |d.entries|
    ensures WithVersion(d.entries, group, version) == [p] <==> OnlyOfVersion(d, group, version, p)
  {
    hide WithVersion;
    var cs := WithVersion(d.entries, group, version);
    WithVersionDistinct(d.entries, group, version);
    if OnlyOfVersion(d, group, version, p) {
      OneMember(cs, p);
    }
    if cs == [p] {
      assert p in cs;
    }
  }

  lemma OneMember(cs: seq<BlobId>, p: BlobId)
    requires Distinct(cs) && forall q :: q in cs <==> q == p
    ensures cs == [p]
  {
    assert p in cs;
    if |cs| > 1 {
      TwoDiffer(cs);
      assert false;
    }
    assert cs[0] in cs;
  }

  lemma TwoDiffer(cs: seq<BlobId>)
    requires Distinct(cs) && |cs| > 1
    ensures cs[0] in cs && cs[1] in cs && cs[0] != cs[1]
  {
  }

  /** Root-first: each blob is the parent of the next, the last one is `id`. */
  ghost predicate Path(d: Dump, c: seq<BlobId>, id: BlobId)
    requires d.Valid()
  {
    && |c| > 0 && c[|c| - 1] == id
    && forall i :: 0 <= i < |c| - 1 ==> IsParent(d, c[i], c[i + 1])
  }

  // ---- chain -------------------------------------------------------------

  /** Extends a root-first chain towards the root; stops at a root, at a blob
      already in it, and past 100,000 blobs. */
  function Extend(d: Dump, c: seq<BlobId>): (r: Result<seq<BlobId>, ReadError>)
    requires d.Valid() && |c| > 0
    decreases 100_002 - |c|
  {
    match ParentOf(d, c[0])
    case Err(e) => Err(e)
    case Ok(None) => Ok(c)
    case Ok(Some(p)) => if p in c || |c| > 100_000 then Ok(c) else Extend(d, [p] + c)
  }

  function ChainOf(d: Dump, id: BlobId): Result<seq<BlobId>, ReadError>
    requires d.Valid()
  {
    Extend(d, [id])
  }

  /** Why a walk ended. */
  ghost predicate Stops(d: Dump, c: seq<BlobId>)
    requires d.Valid() && |c| > 0
  {
    && ParentOf(d, c[0]).Ok?
    && (ParentOf(d, c[0]).value.Some? ==> ParentOf(d, c[0]).value.value in c || |c| > 100_000)
  }

  ghost predicate IsChain(d: Dump, id: BlobId, c: seq<BlobId>)
    requires d.Valid()
  {
    Path(d, c, id) && Distinct(c) && |c| <= 100_001 && Stops(d, c)
  }

  method Chain(d: Dump, id: BlobId) returns (r: Result<seq<BlobId>, ReadError>)
    requires d.Valid()
    ensures r == ChainOf(d, id)
  {
    hide ParentOf;
    var out := [id];
    var cur := id;
    assert Reversed(out) == [id];
    while true
      invariant |out| > 0 && cur == out[|out| - 1]
      invariant Extend(d, Reversed(out)) == ChainOf(d, id)
      decreases 100_002 - |out|
    {
      ghost var c := Reversed(out);
      assert c[0] == cur;
      var parent := ParentOf(d, cur);
      if parent.Err? {
        return Err(parent.error);
      }
      if parent.value.None? {
        break;
      }
      var p := parent.value.value;
      assert p in out <==> p in c by { ReversedHolds(out, p); }
      if p in out || |out| > 100_000 {
        break;
      }
      assert Reversed(out + [p]) == [p] + c;
      out := out + [p];
      cur := p;
    }
    r := Ok(Reversed(out));
  }

  lemma ReversedHolds(c: seq<BlobId>, p: BlobId)
    ensures p in Reversed(c) <==> p in c
  {
    var r := Reversed(c);
    if p in c {
      var i :| 0 <= i < |c| && c[i] == p;
      assert r[|c| - 1 - i] == p;
    }
    if p in r {
      var i :| 0 <= i < |r| && r[i] == p;
      assert c[|c| - 1 - i] == p;
    }
  }

  lemma {:induction false} ExtendIsChain(d: Dump, c: seq<BlobId>, id: BlobId)
    requires d.Valid() && Path(d, c, id) && Distinct(c) && |c| <= 100_001
    ensures Extend(d, c).Ok? ==> IsChain(d, id, Extend(d, c).value)
    ensures Extend(d, c).Err? ==> exists b: seq<BlobId> :: Path(d, b, id) && Distinct(b) && ParentOf(d, b[0]) == Err(Extend(d, c).error)
    decreases 100_002 - |c|
  {
    var parent := ParentOf(d, c[0]);
    if parent.Ok? && parent.value.Some? {
      var p := parent.value.value;
      if p !in c && |c| <= 100_000 {
        ExtendIsChain(d, [p] + c, id);
      }
    }
  }

  /** On every dump, cyclic ones included, the walk ends in a duplicate-free
      list up to `id` in which each blob is the parent of the next; it fails
      only on a blob of that list that does not parse. */
  lemma ChainMeaning(d: Dump, id: BlobId)
    requires d.Valid()
    ensures ChainOf(d, id).Ok? ==> IsChain(d, id, ChainOf(d, id).value)
    ensures ChainOf(d, id).Err? ==>
      exists b: seq<BlobId> :: Path(d, b, id) && Distinct(b) && ParentOf(d, b[0]) == Err(ChainOf(d, id).error)
  {
    ExtendIsChain(d, [id], id);
  }

  lemma {:induction false} ExtendReaches(d: Dump, id: BlobId, c: seq<BlobId>, k: nat)
    requires d.Valid() && IsChain(d, id, c) && k < |c|
    ensures Extend(d, c[k..]) == Ok(c)
    decreases k
  {
    if k == 0 {
      assert c[0..] == c;
    } else {
      ExtendReaches(d, id, c, k - 1);
      assert c[k - 1..] == [c[k - 1]] + c[k..];
      assert IsParent(d, c[k - 1], c[k]);
      assert c[k - 1] !in c[k..];
    }
  }

  /** Being such a list determines the chain. */
  lemma ChainComplete(d: Dump, id: BlobId, c: seq<BlobId>)
    requires d.Valid() && IsChain(d, id, c)
    ensures ChainOf(d, id) == Ok(c)
  {
    ExtendReaches(d, id, c, |c| - 1);
    assert c[|c| - 1..] == [id];
  }

  /** Parents are unique, so of two paths to a blob one continues the other. */
  lemma {:induction false} PathsAlign(d: Dump, p: seq<BlobId>, q: seq<BlobId>, id: BlobId, k: nat)
    requires d.Valid() && Path(d, p, id) && Path(d, q, id) && k < |p| && k < |q|
    ensures p[|p| - 1 - k] == q[|q| - 1 - k]
  {
    if k > 0 {
      PathsAlign(d, p, q, id, k - 1);
      assert IsParent(d, p[|p| - 1 - k], p[|p| - k]);
      assert IsParent(d, q[|q| - 1 - k], q[|q| - k]);
    }
  }

  /** All blobs of a path are of one depot, and each records the version of the
      one before it. */
  lemma {:induction false} PathIsOneDepot(d: Dump, c: seq<BlobId>, id: BlobId, k: nat)
    requires d.Valid() && Grouped(d) && Path(d, c, id) && k < |c| && id < |d.entries|
    ensures c[k] < |d.entries| && d.entries[c[k]].depot == d.entries[id].depot
    ensures k > 0 ==> c[k - 1] < |d.entries| && Follows(d, c[k], d.entries[c[k - 1]].version)
    decreases |c| - k
  {
    hide ParentOf;
    if k + 1 < |c| {
      PathIsOneDepot(d, c, id, k + 1);
      assert IsParent(d, c[k], c[k + 1]);
      ParentIsRecorded(d, c[k], c[k + 1]);
    }
    if k > 0 {
      assert IsParent(d, c[k - 1], c[k - 1 + 1]);
      ParentIsRecorded(d, c[k - 1], c[k]);
    }
  }

  lemma PathPrefix(d: Dump, c: seq<BlobId>, id: BlobId, k: nat)
    requires d.Valid() && Path(d, c, id) && 0 < k <= |c|
    ensures Path(d, c[..k], c[k - 1])
  {
  }

  // ---- complete paths ----------------------------------------------------

  /** A path that starts at a root. */
  ghost predicate Lineage(d: Dump, p: seq<BlobId>, id: BlobId)
    requires d.Valid()
  {
    Path(d, p, id) && ParentOf(d, p[0]) == Ok(None)
  }

  ghost predicate HasLineage(d: Dump, id: BlobId)
    requires d.Valid()
  {
    exists p :: Lineage(d, p, id)
  }

  lemma LineageUnique(d: Dump, p: seq<BlobId>, q: seq<BlobId>, id: BlobId)
    requires d.Valid() && Lineage(d, p, id) && Path(d, q, id)
    ensures |q| <= |p| && q == p[|p| - |q|..]
    ensures Lineage(d, q, id) ==> p == q
  {
    if |q| > |p| {
      assert IsParent(d, q[|q| - 1 - |p|], q[|q| - |p|]);
      PathsAlign(d, p, q, id, |p| - 1);
      assert false;
    } else {
      forall i | 0 <= i < |q| ensures q[i] == p[|p| - |q|..][i] {
        PathsAlign(d, p, q, id, |q| - 1 - i);
      }
      if |q| < |p| {
        assert IsParent(d, p[|p| - |q| - 1], p[|p| - |q|]);
      }
    }
  }

  lemma LineageDistinct(d: Dump, p: seq<BlobId>, id: BlobId)
    requires d.Valid() && Lineage(d, p, id)
    ensures Distinct(p)
  {
    forall i, j | 0 <= i < j < |p| ensures p[i] != p[j] {
      PathPrefix(d, p, id, i + 1);
      PathPrefix(d, p, id, j + 1);
      if p[i] == p[j] {
        LineageUnique(d, p[..i + 1], p[..j + 1], p[i]);
        assert false;
      }
    }
  }

  /** A complete path of at most 100,001 blobs is the chain. */
  lemma LineageIsChain(d: Dump, p: seq<BlobId>, id: BlobId)
    requires d.Valid() && Lineage(d, p, id) && |p| <= 100_001
    ensures ChainOf(d, id) == Ok(p)
  {
    LineageDistinct(d, p, id);
    ChainComplete(d, id, p);
  }

  /** No complete path is longer than a chain can get. */
  ghost predicate NoLongLineage(d: Dump)
    requires d.Valid()
  {
    forall p, b :: Lineage(d, p, b) ==> |p| <= 100_001
  }

  /** Where a chain starts at a blob with a complete path, that blob is the root. */
  lemma ChainStartsAtRoot(d: Dump, id: BlobId, c: seq<BlobId>, p: seq<BlobId>)
    requires d.Valid() && NoLongLineage(d) && IsChain(d, id, c) && Lineage(d, p, c[0])
    ensures p == [c[0]]
  {
    var whole := p + c[1..];
    assert forall i :: 0 <= i < |c[1..]| ==> c[1..][i] == c[i + 1];
    assert Lineage(d, whole, id);
    LineageDistinct(d, whole, id);
    if |p| > 1 {
      var q := p[|p| - 2];
      assert IsParent(d, q, c[0]);
      assert whole[|p| - 2] == q;
      assert forall k :: 0 <= k < |c| ==> whole[|p| - 1 + k] == c[k];
    }
  }
}

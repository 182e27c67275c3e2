/** The cache of file tables: building one through it, and every interleaving
    of any number of builders (`table` and `build_table` in src/store.rs). */
module TableCache {
  import opened Wrappers
  import opened Seqs
  import opened Bytes
  import opened Depots
  import opened Versions
  import opened ParsedBlobs
  import Blobs
  import Checksums
  import Manifests
  import opened Tables
  import opened Lru

  type Cached = seq<(BlobId, FileTable)>

  const TABLES: nat := 256

  /** Stores a table as the most recently used one; the least recently used
      one goes when the cache is over its count. */
  function Put(es: Cached, b: BlobId, t: FileTable): Cached {
    var s := Without(es, b) + [(b, t)];
    if |s| > TABLES then s[1..] else s
  }

  ghost predicate AllGood(d: Dump, es: Cached)
    requires d.Valid()
  {
    forall i :: 0 <= i < |es| ==> Good(d, es[i].0, es[i].1)
  }

  lemma FoundIsGood(d: Dump, es: Cached, b: BlobId)
    requires d.Valid() && AllGood(d, es) && Find(es, b).Some?
    ensures Good(d, b, Find(es, b).value)
  {
    var i :| 0 <= i < |es| && es[i] == (b, Find(es, b).value);
  }

  lemma AllGoodByMembers(d: Dump, es: Cached, s: Cached)
    requires d.Valid() && AllGood(d, es) && forall e :: e in s ==> e in es
    ensures AllGood(d, s)
  {
    hide Good;
    forall i | 0 <= i < |s| ensures Good(d, s[i].0, s[i].1) {
      assert s[i] in es;
      var j :| 0 <= j < |es| && es[j] == s[i];
    }
  }

  lemma PutKeepsGood(d: Dump, es: Cached, b: BlobId, t: FileTable)
    requires d.Valid() && AllGood(d, es) && DistinctKeys(es) && |es| <= TABLES && Good(d, b, t)
    ensures AllGood(d, Put(es, b, t)) && DistinctKeys(Put(es, b, t)) && |Put(es, b, t)| <= TABLES
  {
    hide Good;
    WithoutMembers(es, b);
    WithoutDistinct(es, b);
    WithoutLength(es, b);
    AllGoodByMembers(d, es, Without(es, b));
  }

  /** The cache holds 256 tables: storing one evicts the least recently used
      other one, and only when there are that many already. */
  lemma PutEvictsAt256(es: Cached, b: BlobId, t: FileTable)
    requires DistinctKeys(es) && |es| <= 256 && !Holds(es, b)
    ensures Put(es, b, t) == (if |es| == 256 then es[1..] else es) + [(b, t)]
  {
    WithoutAbsent(es, b);
    if |es| == 256 {
      assert (es + [(b, t)])[1..] == es[1..] + [(b, t)];
    }
  }

  lemma {:induction false} WithoutLength(es: Cached, b: BlobId)
    ensures |Without(es, b)| <= |es|
  {
    if es != [] {
      WithoutLength(es[1..], b);
    }
  }

  lemma {:induction false} WithoutHeldLength(es: Cached, b: BlobId)
    requires Holds(es, b)
    ensures |Without(es, b)| < |es|
  {
    WithoutLength(es[1..], b);
    if es[0].0 != b {
      assert Holds(es[1..], b) by {
        var i :| 0 <= i < |es| && es[i].0 == b;
        assert es[1..][i - 1].0 == b;
      }
      WithoutHeldLength(es[1..], b);
    }
  }

  lemma TouchKeepsGood(d: Dump, es: Cached, b: BlobId)
    requires d.Valid() && AllGood(d, es) && DistinctKeys(es) && |es| <= TABLES
    ensures AllGood(d, Touch(es, b)) && DistinctKeys(Touch(es, b)) && |Touch(es, b)| <= TABLES
  {
    hide Good;
    TouchKeepsContents(es, b);
    if Find(es, b).Some? {
      FoundIsGood(d, es, b);
      WithoutMembers(es, b);
      WithoutHeldLength(es, b);
      AllGoodByMembers(d, es, Without(es, b));
    }
  }

  // ---- one caller --------------------------------------------------------

  /** The state after the first `k` blobs of a chain, and the table of the
      last of them. */
  ghost function Walk(d: Dump, es: Cached, c: seq<BlobId>, k: nat): (Cached, Option<FileTable>)
    requires d.Valid() && k <= |c|
  {
    if k == 0 then (es, None)
    else
      var (before, parent) := Walk(d, es, c, k - 1);
      match Find(before, c[k - 1])
      case Some(t) => (Touch(before, c[k - 1]), Some(t))
      case None =>
        var t := FileTable(Own(d, c[k - 1]), parent);
        (Put(before, c[k - 1], t), Some(t))
  }

  /** How a build can go wrong: no chain, or a blob of it without records. */
  ghost predicate BuildFails(d: Dump, id: BlobId, e: ReadError)
    requires d.Valid()
  {
    match ChainOf(d, id)
    case Err(x) => x == e
    case Ok(c) => exists b :: b in c && d.ParsedOf(b) == Err(e)
  }

  /** Only the chain can: its blobs have all been parsed by then. */
  lemma BuildFailsWithChain(d: Dump, id: BlobId, e: ReadError)
    requires d.Valid()
    ensures BuildFails(d, id, e) <==> ChainOf(d, id) == Err(e)
  {
    if ChainOf(d, id).Ok? {
      ChainParses(d, id, ChainOf(d, id).value);
    }
  }

  class TableStore {
    const dump: Dump
    /** Least recently used first. */
    var tables: Cached

    ghost predicate Valid()
      reads this
    {
      dump.Valid() && DistinctKeys(tables) && |tables| <= TABLES && AllGood(dump, tables)
    }

    constructor (dump: Dump)
      requires dump.Valid()
      ensures Valid() && this.dump == dump && tables == []
    {
      this.dump, tables := dump, [];
    }

    /** A hit costs nothing else; a miss walks the chain root-first, reusing
        whatever layers are cached. */
    method Table(id: BlobId) returns (r: Result<FileTable, ReadError>)
      requires Valid()
      modifies this
      ensures Valid()
      ensures r.Ok? ==> Good(dump, id, r.value)
      ensures old(Find(tables, id)).Some? ==> r == Ok(old(Find(tables, id)).value) && tables == old(Touch(tables, id))
      ensures old(Find(tables, id)).None? && ChainOf(dump, id).Ok? && r.Ok? ==>
        (tables, Some(r.value)) == Walk(dump, old(tables), ChainOf(dump, id).value, |ChainOf(dump, id).value|)
      ensures r.Err? ==> BuildFails(dump, id, r.error)
      ensures ChainOf(dump, id).Err? && r.Err? ==> tables == old(tables)
    {
      hide Good;
      var hit := Find(tables, id);
      if hit.Some? {
        FoundIsGood(dump, tables, id);
        TouchKeepsGood(dump, tables, id);
        tables := Touch(tables, id);
        return Ok(hit.value);
      }
      r := BuildTable(id);
    }

    method BuildTable(id: BlobId) returns (r: Result<FileTable, ReadError>)
      requires Valid()
      modifies this
      ensures Valid()
      ensures r.Ok? ==> Good(dump, id, r.value)
      ensures old(Find(tables, id)).Some? ==> r == Ok(old(Find(tables, id)).value) && tables == old(Touch(tables, id))
      ensures old(Find(tables, id)).None? && ChainOf(dump, id).Ok? && r.Ok? ==>
        (tables, Some(r.value)) == Walk(dump, old(tables), ChainOf(dump, id).value, |ChainOf(dump, id).value|)
      ensures r.Err? ==> BuildFails(dump, id, r.error)
      ensures ChainOf(dump, id).Err? && r.Err? ==> tables == old(tables)
    {
      hide Good, AllGood, DistinctKeys, Find, Touch, Put, IsOwn, Own, ParentOf, Extend;
      var hit := Find(tables, id);
      if hit.Some? {
        FoundIsGood(dump, tables, id);
        TouchKeepsGood(dump, tables, id);
        tables := Touch(tables, id);
        return Ok(hit.value);
      }
      var chain :- Chain(dump, id);
      var parent: Option<FileTable> := None;
      for k := 0 to |chain|
        invariant Valid()
        invariant parent.None? <==> k == 0
        invariant k > 0 ==> Good(dump, chain[k - 1], parent.value)
        invariant (tables, parent) == Walk(dump, old(tables), chain, k)
      {
        var b := chain[k];
        var layer := Find(tables, b);
        if layer.Some? {
          FoundIsGood(dump, tables, b);
          TouchKeepsGood(dump, tables, b);
          tables := Touch(tables, b);
          parent := layer;
        } else {
          var t :- OwnTable(dump, b, parent);
          LayerIsGood(dump, id, chain, k, parent, t);
          OwnIs(dump, b, t.own);
          PutKeepsGood(dump, tables, b, t);
          tables := Put(tables, b, t);
          parent := Some(t);
        }
      }
      // A chain ends at `id` itself, so the last layer is its table.
      ChainMeaning(dump, id);
      r := Ok(parent.value);
    }

    /** `locate`: the file's record as of version `id`. */
    method Locate(id: BlobId, f: u32) returns (r: Result<FileLoc, ReadError>)
      requires Valid()
      modifies this
      ensures Valid()
      ensures r.Ok? ==> exists t :: Good(dump, id, t) && Lookup(t, f) == Some(r.value)
      ensures r.Err? ==>
        || (exists t :: Good(dump, id, t) && Lookup(t, f).None? && r.error == MissingRecord(f))
        || BuildFails(dump, id, r.error)
    {
      hide Good;
      var t :- Table(id);
      var loc := Get(t, f);
      r := if loc.None? then Err(MissingRecord(f)) else Ok(loc.value);
    }
  }

  // ---- any number of callers ---------------------------------------------

  /** Where a caller that missed the cache stands. The cache lock is taken
      once per transition. */
  datatype Builder =
    | Entered(id: BlobId)
    | Walking(id: BlobId, chain: seq<BlobId>, next: nat, parent: Option<FileTable>)
    | Putting(id: BlobId, chain: seq<BlobId>, next: nat, table: FileTable)

  /** `answers` collects every table handed to a caller. */
  datatype System = System(tables: Cached, builders: map<nat, Builder>, answers: Cached)

  datatype Step = Call(thread: nat, id: BlobId) | Advance(thread: nat)

  ghost function Answer(s: System, thread: nat, id: BlobId, t: FileTable): System {
    System(s.tables, s.builders - {thread}, s.answers + [(id, t)])
  }

  ghost function Proceed(d: Dump, s: System, thread: nat): System
    requires d.Valid() && thread in s.builders
  {
    match s.builders[thread]
    case Entered(id) =>
      (match Find(s.tables, id)
       case Some(t) => Answer(s.(tables := Touch(s.tables, id)), thread, id, t)
       case None =>
         match ChainOf(d, id)
         case Err(_) => s.(builders := s.builders - {thread})
         case Ok(c) => s.(builders := s.builders[thread := Walking(id, c, 0, None)]))
    case Walking(id, c, k, parent) =>
      if k >= |c| then
        if parent.None? then s.(builders := s.builders - {thread}) else Answer(s, thread, id, parent.value)
      else
        (match Find(s.tables, c[k])
         case Some(t) => System(Touch(s.tables, c[k]), s.builders[thread := Walking(id, c, k + 1, Some(t))], s.answers)
         case None => s.(builders := s.builders[thread := Putting(id, c, k, FileTable(Own(d, c[k]), parent))]))
    case Putting(id, c, k, t) =>
      if k >= |c| then s
      else System(Put(s.tables, c[k], t), s.builders[thread := Walking(id, c, k + 1, Some(t))], s.answers)
  }

  ghost function Next(d: Dump, s: System, step: Step): System
    requires d.Valid()
  {
    match step
    case Call(thread, id) =>
      if thread in s.builders then s
      else
        (match Find(s.tables, id)
         case Some(t) => Answer(s.(tables := Touch(s.tables, id)), thread, id, t)
         case None => s.(builders := s.builders[thread := Entered(id)]))
    case Advance(thread) => if thread in s.builders then Proceed(d, s, thread) else s
  }

  /** The table a step takes from the cache, if it finds the one it looks for. */
  ghost function Wanted(s: System, step: Step): Option<BlobId> {
    match step
    case Call(thread, id) => if thread in s.builders then None else Some(id)
    case Advance(thread) =>
      if thread !in s.builders then None
      else
        match s.builders[thread]
        case Entered(id) => Some(id)
        case Walking(_, c, k, _) => if k < |c| then Some(c[k]) else None
        case Putting(_, _, _, _) => None
  }

  /** Whatever is found in the cache becomes its most recently used entry, and
      nothing else moves; a stored table becomes that too. */
  lemma HitsRefresh(d: Dump, s: System, step: Step)
    requires d.Valid()
    ensures Wanted(s, step).Some? && Find(s.tables, Wanted(s, step).value).Some? ==>
      var b := Wanted(s, step).value;
      Next(d, s, step).tables == Without(s.tables, b) + [(b, Find(s.tables, b).value)]
    ensures Wanted(s, step).Some? && Find(s.tables, Wanted(s, step).value).None? ==> Next(d, s, step).tables == s.tables
    ensures step.Advance? && step.thread in s.builders && s.builders[step.thread].Putting? && s.builders[step.thread].next < |s.builders[step.thread].chain| ==>
      var b := s.builders[step.thread].chain[s.builders[step.thread].next]; var after := Next(d, s, step).tables;
      |after| > 0 && after[|after| - 1] == (b, s.builders[step.thread].table)
  {
    hide Find, Without, ChainOf;
  }

  ghost function Run(d: Dump, steps: seq<Step>): System
    requires d.Valid()
  {
    if steps == [] then System([], map[], [])
    else Next(d, Run(d, steps[..|steps| - 1]), steps[|steps| - 1])
  }

  ghost predicate BuilderGood(d: Dump, b: Builder)
    requires d.Valid()
  {
    match b
    case Entered(_) => true
    case Walking(id, c, k, parent) =>
      && ChainOf(d, id) == Ok(c) && k <= |c| && (parent.None? <==> k == 0)
      && (k > 0 ==> Good(d, c[k - 1], parent.value))
    case Putting(id, c, k, t) =>
      ChainOf(d, id) == Ok(c) && k < |c| && Good(d, c[k], t)
  }

  ghost predicate Inv(d: Dump, s: System)
    requires d.Valid()
  {
    && AllGood(d, s.tables) && DistinctKeys(s.tables) && |s.tables| <= TABLES && AllGood(d, s.answers)
    && forall t :: t in s.builders ==> BuilderGood(d, s.builders[t])
  }

  lemma WalkingKeepsInv(d: Dump, s: System, thread: nat)
    requires d.Valid() && Inv(d, s) && thread in s.builders && s.builders[thread].Walking?
    ensures Inv(d, Proceed(d, s, thread))
  {
    hide Good, DistinctKeys, Find, Touch, Own, ChainOf, IsOwn;
    var Walking(id, c, k, parent) := s.builders[thread];
    assert BuilderGood(d, s.builders[thread]);
    ChainParses(d, id, c);
    if k < |c| {
      var hit := Find(s.tables, c[k]);
      if hit.Some? {
        FoundIsGood(d, s.tables, c[k]);
        TouchKeepsGood(d, s.tables, c[k]);
      } else {
        var t := FileTable(Own(d, c[k]), parent);
        OwnIs(d, c[k], t.own);
        LayerIsGood(d, id, c, k, parent, t);
      }
    }
  }

  lemma StepKeepsInv(d: Dump, s: System, step: Step)
    requires d.Valid() && Inv(d, s)
    ensures Inv(d, Next(d, s, step))
  {
    hide Good;
    match step
    case Call(thread, id) =>
      TouchKeepsGood(d, s.tables, id);
      if Find(s.tables, id).Some? {
        FoundIsGood(d, s.tables, id);
      }
    case Advance(thread) =>
      if thread in s.builders {
        var b := s.builders[thread];
        assert BuilderGood(d, b);
        match b
        case Entered(id) =>
          TouchKeepsGood(d, s.tables, id);
          if Find(s.tables, id).Some? {
            FoundIsGood(d, s.tables, id);
          }
        case Walking(_, _, _, _) =>
          WalkingKeepsInv(d, s, thread);
        case Putting(_, c, k, t) =>
          PutKeepsGood(d, s.tables, c[k], t);
      }
  }

  lemma {:induction false} RunKeepsInv(d: Dump, steps: seq<Step>)
    requires d.Valid()
    ensures Inv(d, Run(d, steps))
  {
    if steps != [] {
      RunKeepsInv(d, steps[..|steps| - 1]);
      StepKeepsInv(d, Run(d, steps[..|steps| - 1]), steps[|steps| - 1]);
    }
  }

  /** In every run on every dump, cyclic ones included, each table handed out
      or cached for a blob is its records over nothing or over such a table of
      its parent. */
  lemma TablesAreWellLayered(d: Dump, steps: seq<Step>)
    requires d.Valid()
    ensures forall e :: e in Run(d, steps).answers || e in Run(d, steps).tables ==> WellLayered(d, e.0, e.1)
  {
    RunKeepsInv(d, steps);
  }

  /** In every run, the table of a blob with a complete path answers for each
      file with the record of the nearest blob on that path that has one,
      exactly as folding its chain on an empty cache would. Cycles elsewhere
      in the dump do not matter. */
  lemma TableIsNearest(d: Dump, steps: seq<Step>, b: BlobId, t: FileTable, p: seq<BlobId>, f: u32)
    requires d.Valid() && NoLongLineage(d) && Lineage(d, p, b)
    requires (b, t) in Run(d, steps).answers
    ensures Lookup(t, f) == Nearest(d, p, f)
    ensures ChainOf(d, b) == Ok(p) && Lookup(t, f) == Lookup(Fold(d, p), f)
  {
    RunKeepsInv(d, steps);
    WholeIsNearest(d, p, b, t, f);
    LineageIsChain(d, p, b);
    PathParses(d, p, b);
    FoldIsWhole(d, p, b);
    WholeIsNearest(d, p, b, Fold(d, p), f);
  }

  lemma {:induction false} FoldIsWhole(d: Dump, p: seq<BlobId>, b: BlobId)
    requires d.Valid() && Lineage(d, p, b)
    ensures Whole(d, b, Fold(d, p))
    decreases |p|
  {
    PathParses(d, p, b);
    OwnIs(d, b, Own(d, b));
    if |p| > 1 {
      assert IsParent(d, p[|p| - 2], p[|p| - 2 + 1]);
      PathPrefix(d, p, b, |p| - 1);
      FoldIsWhole(d, p[..|p| - 1], p[|p| - 2]);
    }
  }

  // ---- exactly when the cache is transparent -----------------------------

  ghost predicate AnswersFresh(d: Dump, s: System)
    requires d.Valid()
  {
    forall i :: 0 <= i < |s.answers| ==> IsFresh(d, s.answers[i].0, s.answers[i].1)
  }

  function Repeat(n: nat): (r: seq<Step>)
    ensures |r| == n
  {
    if n == 0 then [] else Repeat(n - 1) + [Advance(0)]
  }

  /** One caller building the table of `id` on an empty cache, `k` blobs in. */
  function Solo(id: BlobId, k: nat): seq<Step> {
    [Call(0, id), Advance(0)] + Repeat(2 * k)
  }

  lemma RunSnoc(d: Dump, steps: seq<Step>, step: Step)
    requires d.Valid()
    ensures Run(d, steps + [step]) == Next(d, Run(d, steps), step)
  {
    assert (steps + [step])[..|steps|] == steps;
  }

  lemma {:induction false} WithoutAbsent(es: Cached, b: BlobId)
    requires !Holds(es, b)
    ensures Without(es, b) == es
  {
    if es != [] {
      assert es[0].0 != b;
      assert forall i :: 0 <= i < |es[1..]| ==> es[1..][i] == es[i + 1];
      WithoutAbsent(es[1..], b);
    }
  }

  ghost predicate KeysIn(es: Cached, c: seq<BlobId>) {
    forall i :: 0 <= i < |es| ==> es[i].0 in c
  }

  /** The cache holds only tables of the first `k` blobs, the last two of
      them at the recently used end. */
  ghost predicate Newest(d: Dump, es: Cached, c: seq<BlobId>, k: nat)
    requires d.Valid() && k <= |c|
  {
    && KeysIn(es, c[..k])
    && (k >= 1 ==> |es| >= 1 && es[|es| - 1] == (c[k - 1], Fold(d, c[..k])))
    && (k >= 2 ==> |es| >= 2 && es[|es| - 2] == (c[k - 2], Fold(d, c[..k - 1])))
  }

  ghost function Below(d: Dump, c: seq<BlobId>, k: nat): Option<FileTable>
    requires d.Valid() && k <= |c|
  {
    if k == 0 then None else Some(Fold(d, c[..k]))
  }

  lemma BelowNext(d: Dump, c: seq<BlobId>, k: nat)
    requires d.Valid() && k < |c|
    ensures Below(d, c, k + 1) == Some(FileTable(Own(d, c[k]), Below(d, c, k)))
  {
    hide Own;
    assert c[..k + 1][..k] == c[..k] && c[..k + 1][k] == c[k];
  }

  lemma NewestMisses(d: Dump, es: Cached, c: seq<BlobId>, k: nat)
    requires d.Valid() && k < |c| && Distinct(c) && Newest(d, es, c, k)
    ensures Find(es, c[k]).None?
  {
    hide Fold;
    assert c[k] !in c[..k];
  }

  lemma NewestGrows(d: Dump, es: Cached, c: seq<BlobId>, k: nat)
    requires d.Valid() && k < |c| && Distinct(c) && Newest(d, es, c, k)
    ensures Newest(d, Put(es, c[k], Fold(d, c[..k + 1])), c, k + 1)
  {
    hide Fold, Without, Put, KeysIn;
    var t := Fold(d, c[..k + 1]);
    NewestMisses(d, es, c, k);
    WithoutAbsent(es, c[k]);
    PutNew(es, c[k], t);
    KeysGrow(es, c, k, t);
  }

  lemma KeysGrow(es: Cached, c: seq<BlobId>, k: nat, t: FileTable)
    requires k < |c| && KeysIn(es, c[..k])
    ensures KeysIn(es + [(c[k], t)], c[..k + 1]) && KeysIn((es + [(c[k], t)])[1..], c[..k + 1])
  {
    assert c[..k + 1] == c[..k] + [c[k]];
  }

  lemma PutNew(es: Cached, b: BlobId, t: FileTable)
    requires Without(es, b) == es
    ensures Put(es, b, t) == if |es| + 1 > TABLES then (es + [(b, t)])[1..] else es + [(b, t)]
  {
  }

  lemma SoloStart(d: Dump, id: BlobId, c: seq<BlobId>)
    requires d.Valid() && ChainOf(d, id) == Ok(c)
    ensures Run(d, Solo(id, 0)) == System([], map[0 := Walking(id, c, 0, None)], [])
  {
    hide ChainOf;
    RunSnoc(d, [], Call(0, id));
    assert [] + [Call(0, id)] == [Call(0, id)];
    RunSnoc(d, [Call(0, id)], Advance(0));
    assert [Call(0, id)] + [Advance(0)] == Solo(id, 0);
  }

  lemma SoloLayer(d: Dump, s: System, id: BlobId, c: seq<BlobId>, k: nat)
    requires d.Valid() && k < |c| && Find(s.tables, c[k]).None?
    requires s.builders == map[0 := Walking(id, c, k, Below(d, c, k))]
    ensures var s' := Next(d, Next(d, s, Advance(0)), Advance(0));
      && s'.builders == map[0 := Walking(id, c, k + 1, Below(d, c, k + 1))]
      && s'.tables == Put(s.tables, c[k], Fold(d, c[..k + 1]))
  {
    hide Own, Fold, Find, Put;
    BelowNext(d, c, k);
  }

  lemma {:induction false} SoloRun(d: Dump, id: BlobId, c: seq<BlobId>, k: nat)
    requires d.Valid() && ChainOf(d, id) == Ok(c) && Distinct(c) && k <= |c|
    ensures Run(d, Solo(id, k)).builders == map[0 := Walking(id, c, k, Below(d, c, k))]
    ensures Newest(d, Run(d, Solo(id, k)).tables, c, k)
  {
    hide ChainOf, Own, Fold, Next, Run, Find, Put;
    if k == 0 {
      SoloStart(d, id, c);
    } else {
      SoloRun(d, id, c, k - 1);
      var s := Run(d, Solo(id, k - 1));
      NewestMisses(d, s.tables, c, k - 1);
      SoloLayer(d, s, id, c, k - 1);
      NewestGrows(d, s.tables, c, k - 1);
      assert Repeat(2 * k) == Repeat(2 * k - 2) + [Advance(0)] + [Advance(0)];
      assert Solo(id, k) == Solo(id, k - 1) + [Advance(0)] + [Advance(0)];
      RunSnoc(d, Solo(id, k - 1), Advance(0));
      RunSnoc(d, Solo(id, k - 1) + [Advance(0)], Advance(0));
    }
  }

  /** Building the table of `c[m]` and then asking for the one of `c[m - 1]`
      answers with the layers below it in `c`. */
  lemma AskBelow(d: Dump, c: seq<BlobId>, m: nat) returns (steps: seq<Step>)
    requires d.Valid() && 0 < m == |c| - 1 && Distinct(c) && ChainOf(d, c[m]) == Ok(c)
    ensures (c[m - 1], Fold(d, c[..m])) in Run(d, steps).answers
  {
    hide ChainOf, Own, Fold;
    var id := c[m];
    SoloRun(d, id, c, m + 1);
    var built := Solo(id, m + 1);
    var s := Run(d, built);
    RunKeepsInv(d, built);
    RunSnoc(d, built, Advance(0));
    FindAt(s.tables, |s.tables| - 2);
    RunSnoc(d, built + [Advance(0)], Call(0, c[m - 1]));
    steps := built + [Advance(0)] + [Call(0, c[m - 1])];
  }

  /** Where a walk stops short of a root, some shorter walk on the same path
      would have gone on. */
  lemma ShortOfRoot(d: Dump, id: BlobId, c: seq<BlobId>) returns (m: nat)
    requires d.Valid() && IsChain(d, id, c) && ParentOf(d, c[0]).value.Some? && !IsParent(d, c[0], c[0])
    ensures 0 < m < |c| && IsChain(d, c[m], c[..m + 1])
    ensures ParentOf(d, c[0]).value.value !in c[..m]
  {
    var q := ParentOf(d, c[0]).value.value;
    if q in c {
      m :| 0 <= m < |c| && c[m] == q;
      assert c[..m + 1][m] == q;
    } else {
      m := |c| - 1;
      assert c[..m + 1] == c;
    }
    PathPrefix(d, c, id, m + 1);
    assert c[..m + 1][0] == c[0];
  }

  lemma NotFreshBelow(d: Dump, id: BlobId, c: seq<BlobId>, m: nat)
    requires d.Valid() && IsChain(d, id, c) && 0 < m < |c|
    requires ParentOf(d, c[0]).value.Some? && ParentOf(d, c[0]).value.value !in c[..m]
    ensures !IsFresh(d, c[m - 1], Fold(d, c[..m]))
  {
    hide Own, ChainOf;
    if IsFresh(d, c[m - 1], Fold(d, c[..m])) {
      var e := ChainOf(d, c[m - 1]).value;
      ChainParses(d, c[m - 1], e);
      FoldDepth(d, e);
      FoldDepth(d, c[..m]);
      PathPrefix(d, c, id, m);
      PathsAlign(d, e, c[..m], c[m - 1], m - 1);
      forall i | 0 <= i < m ensures e[i] == c[..m][i] {
        PathsAlign(d, e, c[..m], c[m - 1], m - 1 - i);
      }
      assert false;
    }
  }

  /** Every table ever answered, in every run, is the one an empty cache would
      give, exactly when every walk ends at a root or at a self-parented blob.
      On any other dump the answer depends on what was asked before. */
  lemma CacheTransparentIff(d: Dump)
    requires d.Valid()
    ensures (forall steps :: AnswersFresh(d, Run(d, steps))) <==> Settled(d)
  {
    if Settled(d) {
      forall steps ensures AnswersFresh(d, Run(d, steps)) {
        RunKeepsInv(d, steps);
      }
    } else {
      var id, c :| IsChain(d, id, c) && ParentOf(d, c[0]) != Ok(None) && !IsParent(d, c[0], c[0]);
      var m := ShortOfRoot(d, id, c);
      NotFreshBelow(d, id, c, m);
      ChainComplete(d, c[m], c[..m + 1]);
      assert c[..m + 1][..m] == c[..m] && c[..m + 1][m - 1] == c[m - 1];
      var steps := AskBelow(d, c[..m + 1], m);
      assert !AnswersFresh(d, Run(d, steps));
    }
  }

  /** Two blobs that name each other: after asking for `a`, the table of `b`
      misses a file of `a` that a fresh build of `b` finds. */
  lemma CycleLosesFiles(d: Dump, a: BlobId, b: BlobId, f: u32) returns (steps: seq<Step>, t: FileTable)
    requires d.Valid() && a != b && IsParent(d, a, b) && IsParent(d, b, a)
    requires f in Own(d, a) && f !in Own(d, b)
    ensures (b, t) in Run(d, steps).answers && Lookup(t, f).None?
    ensures ChainOf(d, b) == Ok([a, b]) && Lookup(Fold(d, [a, b]), f) == Some(Own(d, a)[f])
  {
    hide Own, ChainOf, Run;
    assert IsChain(d, a, [b, a]) && IsChain(d, b, [a, b]);
    ChainComplete(d, a, [b, a]);
    ChainComplete(d, b, [a, b]);
    t := Fold(d, [b, a][..1]);
    assert [b, a][..1] == [b] && [a, b][..1] == [a];
    steps := AskBelow(d, [b, a], 1);
  }

  /** A blob without content whose parent is (version, crc). */
  function Bare(version: u32, crc: u32, records: seq<Checksums.FileRecord>): ParsedBlob {
    ParsedBlob(Blobs.VersionMeta(0, 0, 0, 0, Some((version, crc))), Manifests.Manifest(3, 0, 0, 0, 0, [], [], [], []), records)
  }

  /** Versions 1 and 2 of depot 5 name each other; only version 1 has file 9. */
  function CyclicDump(): Dump {
    Dump([BlobEntry(5, 1, 1, None), BlobEntry(5, 2, 2, None)], map[5 := [0, 1]], map[],
         [Ok(Bare(2, 2, [Checksums.FileRecord(9, Checksums.Plain, 0, 0, [])])), Ok(Bare(1, 1, []))])
  }

  lemma CyclicDumpLosesFile() returns (steps: seq<Step>, t: FileTable)
    ensures CyclicDump().Valid()
    ensures (1, t) in Run(CyclicDump(), steps).answers && Lookup(t, 9).None?
    ensures ChainOf(CyclicDump(), 1) == Ok([0, 1]) && Lookup(Fold(CyclicDump(), [0, 1]), 9).Some?
  {
    var d := CyclicDump();
    ParentsInCycle();
    OwnInCycle();
    hide CyclicDump, Own, Run, ChainOf, Fold, ParentOf;
    steps, t := CycleLosesFiles(d, 0, 1, 9);
  }

  lemma ParentsInCycle()
    ensures CyclicDump().Valid() && IsParent(CyclicDump(), 0, 1) && IsParent(CyclicDump(), 1, 0)
  {
    var d := CyclicDump();
    assert FindBlob(d.entries, 5, 1, 1) == Some(0);
    assert FindBlob(d.entries, 5, 2, 2) == Some(1);
  }

  lemma OwnInCycle()
    ensures CyclicDump().Valid() && 9 in Own(CyclicDump(), 0) && 9 !in Own(CyclicDump(), 1)
  {
    var d := CyclicDump();
    OwnIs(d, 0, Own(d, 0));
    OwnIs(d, 1, Own(d, 1));
    assert OwnFile(d, 0, 1, Own(d, 0), 9) && OwnFile(d, 1, 0, Own(d, 1), 9);
    assert Mentions(d.parsed[0].value.records, 1, 9);
  }

  /** A dump whose every walk has a complete path within the limit is settled. */
  lemma AcyclicIsSettled(d: Dump)
    requires d.Valid() && NoLongLineage(d)
    requires forall id :: ChainOf(d, id).Ok? ==> HasLineage(d, id)
    ensures Settled(d)
  {
    forall id, c | IsChain(d, id, c) ensures ParentOf(d, c[0]) == Ok(None) {
      ChainComplete(d, id, c);
      var p :| Lineage(d, p, id);
      LineageIsChain(d, p, id);
    }
  }
}

/** Exactly when `block` is transparent (src/store.rs): it serves cached blocks
    by (dat, start) without any check, and decodes the others under whatever
    key is remembered for their source. Any number of threads call it; every
    step is one lock section. */
module BlockCache {
  import opened Wrappers
  import opened Bytes
  import opened Lru
  import opened ByteCache
  import opened Checksums
  import opened Chunks
  import opened Depots
  import opened Versions
  import opened Tables
  import opened KeyResolution
  import opened Reads

  /** The files that are read, and the settings. */
  datatype Config = Config(src: Source, locs: set<FileLoc>, verify: bool, capacity: nat) {
    ghost predicate Valid() {
      src.Valid() && AllPlaced(src, locs)
    }
  }

  function KeyOfBlock(loc: FileLoc, i: nat): (DatId, nat)
    requires HasBlock(loc, i)
  {
    (loc.dat.value, loc.offsets[i])
  }

  /** Where a thread is in its call for block `i` of `loc`. */
  datatype Pc =
    | Missed(loc: FileLoc, i: nat)                       // not in the block cache
    | Searched(loc: FileLoc, i: nat, found: Resolution)  // no key remembered: searched for one
    | Keyed(loc: FileLoc, i: nat, key: Resolution)       // has the key to decode with
    | Decoded(loc: FileLoc, i: nat, value: seq<byte>)    // about to cache the block

  /** What a call was answered. */
  datatype Handed = Handed(loc: FileLoc, i: nat, result: Result<seq<byte>, ReadError>)

  datatype System = System(
    blocks: Buffers,
    memo: map<BlobId, Resolution>,
    threads: map<nat, Pc>,
    answers: seq<Handed>)

  datatype Step = Ask(thread: nat, loc: FileLoc, i: nat) | Advance(thread: nat) | Fail(thread: nat)

  ghost function Reply(s: System, t: nat, loc: FileLoc, i: nat, r: Result<seq<byte>, ReadError>): System {
    s.(threads := s.threads - {t}, answers := s.answers + [Handed(loc, i, r)])
  }

  ghost function Move(s: System, t: nat, pc: Pc): System {
    s.(threads := s.threads[t := pc])
  }

  ghost function Begin(w: Config, s: System, t: nat, loc: FileLoc, i: nat): System
    requires w.Valid() && loc in w.locs
  {
    if !HasBlock(loc, i) then Reply(s, t, loc, i, Direct(w.src, loc, i, w.verify))
    else
      match Find(s.blocks, KeyOfBlock(loc, i))
      case Some(v) => Reply(s.(blocks := Touch(s.blocks, KeyOfBlock(loc, i))), t, loc, i, Ok(v))
      case None => Move(s, t, Missed(loc, i))
  }

  /** Reads the stored bytes and looks for a remembered key. */
  ghost function LookUp(w: Config, s: System, t: nat, loc: FileLoc, i: nat): System
    requires w.Valid() && loc in w.locs
  {
    match Raw(w.src, loc, i)
    case Err(e) => Reply(s, t, loc, i, Err(e))
    case Ok(raw) =>
      if !loc.record.mode.IsEncrypted() then Move(s, t, Keyed(loc, i, Resolution.NoKey(0)))
      else if loc.source in s.memo then Move(s, t, Keyed(loc, i, s.memo[loc.source]))
      else
        var r := Answer(w.src.codec, w.src.keys, w.src.search, w.src.dump.entries[loc.source], SampleOf(loc, i, raw));
        Move(s, t, Searched(loc, i, r))
  }

  ghost function Decoding(w: Config, s: System, t: nat, loc: FileLoc, i: nat, r: Resolution): System
    requires w.Valid() && loc in w.locs
  {
    match Raw(w.src, loc, i)
    case Err(e) => Reply(s, t, loc, i, Err(e))
    case Ok(raw) =>
      var out := Finish(w.src, loc, i, raw, r, w.verify);
      if out.Ok? && !loc.record.mode.Plain? then Move(s, t, Decoded(loc, i, out.value)) else Reply(s, t, loc, i, out)
  }

  ghost function Next(w: Config, s: System, step: Step): System
    requires w.Valid()
  {
    match step
    case Ask(t, loc, i) => if t in s.threads || loc !in w.locs then s else Begin(w, s, t, loc, i)
    case Fail(t) =>
      if t in s.threads && s.threads[t].Missed? then Reply(s, t, s.threads[t].loc, s.threads[t].i, Err(Other("backend"))) else s
    case Advance(t) =>
      if t !in s.threads || s.threads[t].loc !in w.locs then s
      else
        match s.threads[t]
        case Missed(loc, i) => LookUp(w, s, t, loc, i)
        case Searched(loc, i, r) => Move(s.(memo := s.memo[loc.source := r]), t, Keyed(loc, i, r))
        case Keyed(loc, i, r) => Decoding(w, s, t, loc, i, r)
        case Decoded(loc, i, v) =>
          if !HasBlock(loc, i) then s
          else Reply(s.(blocks := Inserted(s.blocks, KeyOfBlock(loc, i), v, w.capacity)), t, loc, i, Ok(v))
  }

  ghost function Run(w: Config, steps: seq<Step>): System
    requires w.Valid()
  {
    if steps == [] then System([], map[], map[], [])
    else Next(w, Run(w, steps[..|steps| - 1]), steps[|steps| - 1])
  }

  // ---- the property and its condition ------------------------------------

  ghost predicate AnswerRight(w: Config, a: Handed)
    requires w.Valid()
  {
    a.loc in w.locs && (a.result.Ok? ==> a.result == Direct(w.src, a.loc, a.i, false))
  }

  ghost predicate AnswersRight(w: Config, s: System)
    requires w.Valid()
  {
    forall k :: 0 <= k < |s.answers| ==> AnswerRight(w, s.answers[k])
  }

  /** Every block served in every run is the directly decoded one. */
  ghost predicate Transparent(w: Config)
    requires w.Valid()
  {
    forall steps :: AnswersRight(w, Run(w, steps))
  }

  /** `v` is right for the block itself and, where it can be cached, for every
      block under the same key. */
  ghost predicate RightEverywhere(w: Config, a: FileLoc, i: nat, v: seq<byte>)
    requires w.Valid() && a in w.locs
  {
    && Direct(w.src, a, i, false) == Ok(v)
    && (!a.record.mode.Plain? && |v| <= w.capacity ==>
          forall b, j: nat :: b in w.locs && SharesKey(a, i, b, j) ==> Direct(w.src, b, j, false) == Ok(v))
  }

  /** Whatever a block decodes to under an answer right for some block of its
      source is right everywhere. */
  ghost predicate Sound(w: Config)
    requires w.Valid()
  {
    forall a, i: nat, v :: a in w.locs && Outcome(w.src, w.locs, a, i, w.verify, Ok(v)) ==> RightEverywhere(w, a, i, v)
  }

  // ---- the condition is enough -------------------------------------------

  ghost predicate HitRight(w: Config, es: Buffers, b: FileLoc, j: nat)
    requires w.Valid() && b in w.locs && HasBlock(b, j)
  {
    var hit := Find(es, KeyOfBlock(b, j));
    hit.Some? ==> Direct(w.src, b, j, false) == Ok(hit.value)
  }

  /** Everything cached is what each record with its key decodes to. */
  ghost predicate CacheRight(w: Config, es: Buffers)
    requires w.Valid()
  {
    DistinctKeys(es) && forall b, j: nat :: b in w.locs && HasBlock(b, j) ==> HitRight(w, es, b, j)
  }

  ghost predicate ThreadRight(w: Config, pc: Pc)
    requires w.Valid()
  {
    && pc.loc in w.locs && HasBlock(pc.loc, pc.i)
    && match pc
       case Missed(_, _) => true
       case Searched(loc, _, r) => loc.record.mode.IsEncrypted() && Raw(w.src, loc, pc.i).Ok? && Answered(w.src, w.locs, loc.source, r)
       case Keyed(loc, i, r) => Raw(w.src, loc, i).Ok? && Possible(w.src, w.locs, loc, r)
       case Decoded(loc, i, v) => !loc.record.mode.Plain? && Outcome(w.src, w.locs, loc, i, w.verify, Ok(v))
  }

  ghost predicate Inv(w: Config, s: System)
    requires w.Valid()
  {
    && CacheRight(w, s.blocks) && MemoTrue(w.src, w.locs, s.memo) && AnswersRight(w, s)
    && forall t :: t in s.threads ==> ThreadRight(w, s.threads[t])
  }

  lemma ReplyKeepsInv(w: Config, s: System, t: nat, loc: FileLoc, i: nat, r: Result<seq<byte>, ReadError>)
    requires w.Valid() && Inv(w, s) && AnswerRight(w, Handed(loc, i, r))
    ensures Inv(w, Reply(s, t, loc, i, r))
  {
    hide CacheRight, ThreadRight, AnswerRight, MemoTrue;
  }

  lemma MoveKeepsInv(w: Config, s: System, t: nat, pc: Pc)
    requires w.Valid() && Inv(w, s) && ThreadRight(w, pc)
    ensures Inv(w, Move(s, t, pc))
  {
    hide CacheRight, ThreadRight, AnswerRight, MemoTrue;
  }

  lemma BlocksKeepInv(w: Config, s: System, es: Buffers)
    requires w.Valid() && Inv(w, s) && CacheRight(w, es)
    ensures Inv(w, s.(blocks := es))
  {
    hide CacheRight, ThreadRight, AnswerRight, MemoTrue;
  }

  lemma MemoKeepsInv(w: Config, s: System, source: BlobId, r: Resolution)
    requires w.Valid() && Inv(w, s) && Answered(w.src, w.locs, source, r)
    ensures Inv(w, s.(memo := s.memo[source := r]))
  {
    hide CacheRight, ThreadRight, AnswerRight, Answered;
  }

  lemma BeginKeepsInv(w: Config, s: System, t: nat, loc: FileLoc, i: nat)
    requires w.Valid() && Inv(w, s) && loc in w.locs
    ensures Inv(w, Begin(w, s, t, loc, i))
  {
    hide Inv, Direct, Placed, Find, Touch;
    if !HasBlock(loc, i) {
      NoBlockFails(w, loc, i);
      ReplyKeepsInv(w, s, t, loc, i, Direct(w.src, loc, i, w.verify));
    } else {
      var key := KeyOfBlock(loc, i);
      if Find(s.blocks, key).Some? {
        TouchKeepsRight(w, s, key);
        HitIsRight(w, s, loc, i);
        BlocksKeepInv(w, s, Touch(s.blocks, key));
        ReplyKeepsInv(w, s.(blocks := Touch(s.blocks, key)), t, loc, i, Ok(Find(s.blocks, key).value));
      } else {
        MoveKeepsInv(w, s, t, Missed(loc, i));
      }
    }
  }

  lemma NoBlockFails(w: Config, loc: FileLoc, i: nat)
    requires w.Valid() && loc in w.locs && !HasBlock(loc, i)
    ensures Direct(w.src, loc, i, w.verify).Err?
  {
    assert Placed(w.src, loc);
  }

  lemma TouchKeepsRight(w: Config, s: System, key: (DatId, nat))
    requires w.Valid() && Inv(w, s)
    ensures CacheRight(w, Touch(s.blocks, key))
  {
    hide Touch, Find, Direct, ThreadRight, AnswersRight;
    TouchKeepsContents(s.blocks, key);
    forall b, j: nat | b in w.locs && HasBlock(b, j) ensures HitRight(w, Touch(s.blocks, key), b, j) {
      assert HitRight(w, s.blocks, b, j);
    }
  }

  lemma HitIsRight(w: Config, s: System, loc: FileLoc, i: nat)
    requires w.Valid() && Inv(w, s) && loc in w.locs && HasBlock(loc, i) && Find(s.blocks, KeyOfBlock(loc, i)).Some?
    ensures AnswerRight(w, Handed(loc, i, Ok(Find(s.blocks, KeyOfBlock(loc, i)).value)))
  {
    hide Find, Direct, ThreadRight, AnswersRight;
    assert HitRight(w, s.blocks, loc, i);
  }

  lemma InsertKeepsRight(w: Config, es: Buffers, loc: FileLoc, i: nat, v: seq<byte>)
    requires w.Valid() && CacheRight(w, es) && loc in w.locs && HasBlock(loc, i) && !loc.record.mode.Plain?
    requires RightEverywhere(w, loc, i, v)
    ensures CacheRight(w, Inserted(es, KeyOfBlock(loc, i), v, w.capacity))
  {
    hide Inserted, Find, Direct;
    var key := KeyOfBlock(loc, i);
    var fs := Inserted(es, key, v, w.capacity);
    InsertEffect(es, key, v, w.capacity);
    OversizedInsert(es, key, v, w.capacity);
    forall b, j: nat | b in w.locs && HasBlock(b, j) ensures HitRight(w, fs, b, j) {
      assert HitRight(w, es, b, j);
      if KeyOfBlock(b, j) == key {
        assert SharesKey(loc, i, b, j);
      }
    }
  }

  lemma LookUpKeepsInv(w: Config, s: System, t: nat, loc: FileLoc, i: nat)
    requires w.Valid() && Inv(w, s) && t in s.threads && s.threads[t] == Missed(loc, i)
    ensures ThreadRight(w, s.threads[t]) && Inv(w, LookUp(w, s, t, loc, i))
  {
    hide Raw, Resolves, SamplesOf, CacheRight, AnswersRight, Direct, Contiguous;
    assert ThreadRight(w, s.threads[t]);
    match Raw(w.src, loc, i)
    case Err(e) => ReplyKeepsInv(w, s, t, loc, i, Err(e));
    case Ok(raw) =>
      if !loc.record.mode.IsEncrypted() {
        MoveKeepsInv(w, s, t, Keyed(loc, i, Resolution.NoKey(0)));
      } else if loc.source in s.memo {
        MoveKeepsInv(w, s, t, Keyed(loc, i, s.memo[loc.source]));
      } else {
        OwnSample(w.src, w.locs, loc, i);
        var r := Answer(w.src.codec, w.src.keys, w.src.search, w.src.dump.entries[loc.source], SampleOf(loc, i, raw));
        MoveKeepsInv(w, s, t, Searched(loc, i, r));
      }
  }

  lemma DecodingKeepsInv(w: Config, s: System, t: nat, loc: FileLoc, i: nat, r: Resolution)
    requires w.Valid() && Sound(w) && Inv(w, s) && t in s.threads && s.threads[t] == Keyed(loc, i, r)
    ensures ThreadRight(w, s.threads[t]) && Inv(w, Decoding(w, s, t, loc, i, r))
  {
    hide Raw, Finish, Possible, Direct, Placed, CacheRight, AnswersRight, MemoTrue;
    assert ThreadRight(w, s.threads[t]);
    var out := Finish(w.src, loc, i, Raw(w.src, loc, i).value, r, w.verify);
    assert Outcome(w.src, w.locs, loc, i, w.verify, out);
    if out.Ok? {
      assert RightEverywhere(w, loc, i, out.value);
    }
    ReplyOrMove(w, s, t, loc, i, out);
  }

  lemma ReplyOrMove(w: Config, s: System, t: nat, loc: FileLoc, i: nat, out: Result<seq<byte>, ReadError>)
    requires w.Valid() && Inv(w, s) && loc in w.locs && HasBlock(loc, i) && Outcome(w.src, w.locs, loc, i, w.verify, out)
    requires out.Ok? ==> RightEverywhere(w, loc, i, out.value)
    ensures if out.Ok? && !loc.record.mode.Plain? then Inv(w, Move(s, t, Decoded(loc, i, out.value))) else Inv(w, Reply(s, t, loc, i, out))
  {
    hide Inv, Outcome, Direct;
    if out.Ok? && !loc.record.mode.Plain? {
      MoveKeepsInv(w, s, t, Decoded(loc, i, out.value));
    } else {
      ReplyKeepsInv(w, s, t, loc, i, out);
    }
  }

  lemma SearchedKeepsInv(w: Config, s: System, t: nat)
    requires w.Valid() && Inv(w, s) && t in s.threads && s.threads[t].Searched?
    ensures ThreadRight(w, s.threads[t]) && Inv(w, Next(w, s, Advance(t)))
  {
    hide Raw, Answered, Direct, CacheRight, AnswersRight, Outcome, Placed;
    assert ThreadRight(w, s.threads[t]);
    var Searched(loc, i, r) := s.threads[t];
    MemoKeepsInv(w, s, loc.source, r);
    MoveKeepsInv(w, s.(memo := s.memo[loc.source := r]), t, Keyed(loc, i, r));
  }

  lemma DecodedKeepsInv(w: Config, s: System, t: nat)
    requires w.Valid() && Sound(w) && Inv(w, s) && t in s.threads && s.threads[t].Decoded?
    ensures ThreadRight(w, s.threads[t]) && Inv(w, Next(w, s, Advance(t)))
  {
    hide Inserted, CacheRight, AnswersRight, MemoTrue, Direct, Outcome, Placed, Find;
    assert ThreadRight(w, s.threads[t]);
    var Decoded(loc, i, v) := s.threads[t];
    assert RightEverywhere(w, loc, i, v);
    InsertKeepsRight(w, s.blocks, loc, i, v);
    var es := Inserted(s.blocks, KeyOfBlock(loc, i), v, w.capacity);
    BlocksKeepInv(w, s, es);
    ReplyKeepsInv(w, s.(blocks := es), t, loc, i, Ok(v));
  }

  lemma StepKeepsInv(w: Config, s: System, step: Step)
    requires w.Valid() && Sound(w) && Inv(w, s)
    ensures Inv(w, Next(w, s, step))
  {
    match step
    case Ask(t, loc, i) =>
      if t !in s.threads && loc in w.locs {
        BeginKeepsInv(w, s, t, loc, i);
      }
    case Fail(t) =>
      if t in s.threads && s.threads[t].Missed? {
        FailKeepsInv(w, s, t);
      }
    case Advance(t) =>
      if t in s.threads {
        AdvanceKeepsInv(w, s, t);
      }
  }

  lemma FailKeepsInv(w: Config, s: System, t: nat)
    requires w.Valid() && Inv(w, s) && t in s.threads
    ensures Inv(w, Reply(s, t, s.threads[t].loc, s.threads[t].i, Err(Other("backend"))))
  {
    hide CacheRight, MemoTrue;
    assert ThreadRight(w, s.threads[t]);
    ReplyKeepsInv(w, s, t, s.threads[t].loc, s.threads[t].i, Err(Other("backend")));
  }

  lemma AdvanceKeepsInv(w: Config, s: System, t: nat)
    requires w.Valid() && Sound(w) && Inv(w, s) && t in s.threads
    ensures Inv(w, Next(w, s, Advance(t)))
  {
    hide Inv, Sound, ThreadRight, LookUp, Decoding;
    match s.threads[t]
    case Missed(loc, i) => LookUpKeepsInv(w, s, t, loc, i);
    case Searched(_, _, _) => SearchedKeepsInv(w, s, t);
    case Keyed(loc, i, r) => DecodingKeepsInv(w, s, t, loc, i, r);
    case Decoded(_, _, _) => DecodedKeepsInv(w, s, t);
  }

  lemma {:induction false} RunKeepsInv(w: Config, steps: seq<Step>)
    requires w.Valid() && Sound(w)
    ensures Inv(w, Run(w, steps))
  {
    if steps != [] {
      hide Inv, Sound, Next;
      RunKeepsInv(w, steps[..|steps| - 1]);
      StepKeepsInv(w, Run(w, steps[..|steps| - 1]), steps[|steps| - 1]);
    }
  }

  // ---- and needed --------------------------------------------------------

  ghost predicate Reachable(w: Config, s: System)
    requires w.Valid()
  {
    exists steps :: Run(w, steps) == s
  }

  lemma ReachNext(w: Config, s: System, step: Step)
    requires w.Valid() && Reachable(w, s)
    ensures Reachable(w, Next(w, s, step))
  {
    hide Next;
    var steps :| Run(w, steps) == s;
    assert (steps + [step])[..|steps|] == steps;
    assert Run(w, steps + [step]) == Next(w, s, step);
  }

  lemma ReachStart(w: Config)
    requires w.Valid()
    ensures Reachable(w, System([], map[], map[], []))
  {
    assert Run(w, []) == System([], map[], map[], []);
  }

  lemma AskMiss(w: Config, s: System, t: nat, loc: FileLoc, i: nat)
    requires w.Valid() && Reachable(w, s) && t !in s.threads && loc in w.locs && HasBlock(loc, i)
    requires Find(s.blocks, KeyOfBlock(loc, i)).None?
    ensures Reachable(w, Move(s, t, Missed(loc, i)))
  {
    hide Find, Reachable, Placed, Touch;
    ReachNext(w, s, Ask(t, loc, i));
  }

  lemma AskHit(w: Config, s: System, t: nat, loc: FileLoc, i: nat)
    requires w.Valid() && Reachable(w, s) && t !in s.threads && loc in w.locs && HasBlock(loc, i)
    requires Find(s.blocks, KeyOfBlock(loc, i)).Some?
    ensures Reachable(w, Reply(s.(blocks := Touch(s.blocks, KeyOfBlock(loc, i))), t, loc, i, Ok(Find(s.blocks, KeyOfBlock(loc, i)).value)))
  {
    hide Find, Reachable, Placed, Touch;
    ReachNext(w, s, Ask(t, loc, i));
  }

  /** A thread that missed resolves the key itself, on its own block. */
  lemma ResolveAlone(w: Config, s: System, t: nat, loc: FileLoc, i: nat) returns (r: Resolution)
    requires w.Valid() && Reachable(w, s) && t in s.threads && s.threads[t] == Missed(loc, i) && loc in w.locs
    requires HasBlock(loc, i) && loc.record.mode.IsEncrypted() && Raw(w.src, loc, i).Ok? && loc.source !in s.memo
    ensures Placed(w.src, loc)
    ensures r == Answer(w.src.codec, w.src.keys, w.src.search, w.src.dump.entries[loc.source], SampleOf(loc, i, Raw(w.src, loc, i).value))
    ensures Reachable(w, System(s.blocks, s.memo[loc.source := r], s.threads[t := Keyed(loc, i, r)], s.answers))
  {
    hide Raw, Answer, Reachable, Contiguous;
    assert Placed(w.src, loc);
    r := Answer(w.src.codec, w.src.keys, w.src.search, w.src.dump.entries[loc.source], SampleOf(loc, i, Raw(w.src, loc, i).value));
    ReachNext(w, s, Advance(t));
    var a := Move(s, t, Searched(loc, i, r));
    assert Next(w, s, Advance(t)) == a;
    ReachNext(w, a, Advance(t));
    assert a.threads[t := Keyed(loc, i, r)] == s.threads[t := Keyed(loc, i, r)];
  }

  /** A thread that missed finds the key remembered, or needs none. */
  lemma UseRemembered(w: Config, s: System, t: nat, loc: FileLoc, i: nat) returns (r: Resolution)
    requires w.Valid() && Reachable(w, s) && t in s.threads && s.threads[t] == Missed(loc, i) && loc in w.locs
    requires Raw(w.src, loc, i).Ok? && (loc.record.mode.IsEncrypted() ==> loc.source in s.memo)
    ensures loc.record.mode.IsEncrypted() ==> r == s.memo[loc.source]
    ensures Reachable(w, Move(s, t, Keyed(loc, i, r)))
  {
    hide Raw, Answer, Reachable, Placed;
    r := if loc.record.mode.IsEncrypted() then s.memo[loc.source] else Resolution.NoKey(0);
    ReachNext(w, s, Advance(t));
  }

  /** A thread with a key serves what that key gives, and caches it. */
  lemma ServeKeyed(w: Config, s: System, t: nat, loc: FileLoc, i: nat, r: Resolution, v: seq<byte>)
    requires w.Valid() && Reachable(w, s) && t in s.threads && s.threads[t] == Keyed(loc, i, r) && loc in w.locs
    requires HasBlock(loc, i) && Placed(w.src, loc) && Raw(w.src, loc, i).Ok?
    requires Finish(w.src, loc, i, Raw(w.src, loc, i).value, r, w.verify) == Ok(v)
    ensures Reachable(w, AfterServing(w, s, t, loc, i, v))
  {
    hide Raw, Finish, Reachable, Placed, Inserted;
    ReachNext(w, s, Advance(t));
    if !loc.record.mode.Plain? {
      var a := Move(s, t, Decoded(loc, i, v));
      assert Next(w, s, Advance(t)) == a;
      ReachNext(w, a, Advance(t));
      assert a.threads - {t} == s.threads - {t};
    }
  }

  ghost function AfterServing(w: Config, s: System, t: nat, loc: FileLoc, i: nat, v: seq<byte>): System
    requires HasBlock(loc, i)
  {
    Reply(if loc.record.mode.Plain? then s else s.(blocks := Inserted(s.blocks, KeyOfBlock(loc, i), v, w.capacity)), t, loc, i, Ok(v))
  }

  /** On an empty cache, a thread can come to hold any key that is right for
      some block of its source. */
  lemma HoldKey(w: Config, a: FileLoc, i: nat, r: Resolution) returns (s: System, q: Resolution)
    requires w.Valid() && a in w.locs && HasBlock(a, i) && Raw(w.src, a, i).Ok? && Possible(w.src, w.locs, a, r)
    ensures Reachable(w, s) && s.blocks == [] && 0 in s.threads && s.threads[0] == Keyed(a, i, q)
    ensures a.record.mode.IsEncrypted() ==> q == r
  {
    hide Raw, Resolves, Reachable, Contiguous;
    ReachStart(w);
    var none := System([], map[], map[], []);
    AskMiss(w, none, 0, a, i);
    s := Move(none, 0, Missed(a, i));
    if a.record.mode.IsEncrypted() {
      var c, k := SamplingBlock(w, a.source, r);
      AskMiss(w, s, 1, c, k);
      s := Move(s, 1, Missed(c, k));
      var p := ResolveAlone(w, s, 1, c, k);
      s := System(s.blocks, s.memo[c.source := p], s.threads[1 := Keyed(c, k, p)], s.answers);
    }
    q := UseRemembered(w, s, 0, a, i);
    s := Move(s, 0, Keyed(a, i, q));
  }

  /** The block whose own resolution is `r`. */
  lemma SamplingBlock(w: Config, source: BlobId, r: Resolution) returns (c: FileLoc, k: nat)
    requires w.Valid() && Answered(w.src, w.locs, source, r)
    ensures c in w.locs && c.source == source && HasBlock(c, k) && c.record.mode.IsEncrypted()
    ensures Placed(w.src, c) && Raw(w.src, c, k).Ok?
    ensures r == Answer(w.src.codec, w.src.keys, w.src.search, w.src.dump.entries[source], SampleOf(c, k, Raw(w.src, c, k).value))
  {
    hide Raw, Resolves, Contiguous, Answer;
    var x :| x in SamplesOf(w.src, w.locs, source)
             && Resolves(w.src.codec, w.src.keys, w.src.search, w.src.dump.entries[source], x, r);
    var a, i :| a in w.locs && 0 <= i < |a.record.blocks| && Encrypts(w.src, a, i, source) && x == SampleOf(a, i, Raw(w.src, a, i).value);
    c, k := a, i;
    RawInRange(w.src, c, k);
    ResolutionUnique(w.src.codec, w.src.keys, w.src.search, w.src.dump.entries[source], x, r,
                     Answer(w.src.codec, w.src.keys, w.src.search, w.src.dump.entries[source], x));
  }

  /** Every outcome of a block is served in some run, and what can be cached
      is then served for every block under the same key. */
  lemma OutcomesAreServed(w: Config, a: FileLoc, i: nat, v: seq<byte>) returns (s: System)
    requires w.Valid() && a in w.locs && Outcome(w.src, w.locs, a, i, w.verify, Ok(v))
    ensures HasBlock(a, i) && Reachable(w, s) && 0 !in s.threads
    ensures |s.answers| > 0 && s.answers[|s.answers| - 1] == Handed(a, i, Ok(v))
    ensures s.blocks == if a.record.mode.Plain? then [] else Inserted([], KeyOfBlock(a, i), v, w.capacity)
  {
    hide Raw, Possible, Reachable, Checked, Inserted;
    RawInRange(w.src, a, i);
    var raw := Raw(w.src, a, i).value;
    var r :| Possible(w.src, w.locs, a, r) && Ok(v) == Finish(w.src, a, i, raw, r, w.verify);
    var h, q := HoldKey(w, a, i, r);
    assert Finish(w.src, a, i, raw, q, w.verify) == Ok(v);
    ServeKeyed(w, h, 0, a, i, q, v);
    s := AfterServing(w, h, 0, a, i, v);
  }

  lemma CachedIsServed(w: Config, a: FileLoc, i: nat, v: seq<byte>, b: FileLoc, j: nat) returns (s: System)
    requires w.Valid() && a in w.locs && Outcome(w.src, w.locs, a, i, w.verify, Ok(v))
    requires !a.record.mode.Plain? && |v| <= w.capacity && b in w.locs && SharesKey(a, i, b, j)
    ensures Reachable(w, s) && |s.answers| > 0 && s.answers[|s.answers| - 1] == Handed(b, j, Ok(v))
  {
    hide Outcome, Reachable, Inserted, Find, Touch;
    s := OutcomesAreServed(w, a, i, v);
    InsertEffect([], KeyOfBlock(a, i), v, w.capacity);
    AskHit(w, s, 0, b, j);
    s := Reply(s.(blocks := Touch(s.blocks, KeyOfBlock(b, j))), 0, b, j, Ok(v));
  }

  lemma WrongAnswer(w: Config, s: System, k: nat)
    requires w.Valid() && Reachable(w, s) && k < |s.answers| && !AnswerRight(w, s.answers[k])
    ensures !Transparent(w)
  {
    hide AnswerRight, Run;
    var steps :| Run(w, steps) == s;
    assert !AnswersRight(w, Run(w, steps));
  }

  lemma UnsoundIsSeen(w: Config, a: FileLoc, i: nat, v: seq<byte>)
    requires w.Valid() && a in w.locs && Outcome(w.src, w.locs, a, i, w.verify, Ok(v)) && !RightEverywhere(w, a, i, v)
    ensures !Transparent(w)
  {
    hide Outcome, Reachable, Direct, Transparent, Inserted;
    if Direct(w.src, a, i, false) != Ok(v) {
      var s := OutcomesAreServed(w, a, i, v);
      WrongAnswer(w, s, |s.answers| - 1);
    } else {
      var b, j: nat :| b in w.locs && SharesKey(a, i, b, j) && Direct(w.src, b, j, false) != Ok(v);
      var s := CachedIsServed(w, a, i, v, b, j);
      WrongAnswer(w, s, |s.answers| - 1);
    }
  }

  /** In every run of any number of threads each block served is the directly
      decoded one, exactly when whatever a block decodes to under an answer
      right for some block of its source is its direct decoding and, where it
      can be cached, that of every block under the same key. */
  lemma TransparentIff(w: Config)
    requires w.Valid()
    ensures Transparent(w) <==> Sound(w)
  {
    hide RightEverywhere, Outcome, Run, CacheRight, ThreadRight, MemoTrue, AnswersRight;
    if Sound(w) {
      forall steps ensures AnswersRight(w, Run(w, steps)) {
        RunKeepsInv(w, steps);
      }
    } else {
      var a, i: nat, v :| a in w.locs && Outcome(w.src, w.locs, a, i, w.verify, Ok(v)) && !RightEverywhere(w, a, i, v);
      UnsoundIsSeen(w, a, i, v);
    }
  }

  // ---- with steady keys only the cache key matters -----------------------

  ghost predicate Agree(w: Config, a: FileLoc, i: nat, b: FileLoc, j: nat)
    requires w.Valid() && a in w.locs && b in w.locs
  {
    var v := Direct(w.src, a, i, w.verify);
    !a.record.mode.Plain? && v.Ok? && |v.value| <= w.capacity ==> Direct(w.src, b, j, false) == v
  }

  /** Records that share a key decode alike, wherever a block that decodes can
      be cached at all. */
  ghost predicate KeysAgree(w: Config)
    requires w.Valid()
  {
    forall a, b, i: nat, j: nat :: a in w.locs && b in w.locs && SharesKey(a, i, b, j) ==> Agree(w, a, i, b, j)
  }

  lemma Unchecked(src: Source, loc: FileLoc, i: nat, verify: bool)
    requires src.Valid() && Placed(src, loc) && Direct(src, loc, i, verify).Ok?
    ensures Direct(src, loc, i, false) == Direct(src, loc, i, verify) && HasBlock(loc, i)
  {
    hide Raw, Answer;
    RawInRange(src, loc, i);
  }

  /** Where every source has a steady key, transparency is agreement of the
      records that share a cache key. */
  lemma SteadyTransparentIff(w: Config)
    requires w.Valid() && forall a :: a in w.locs ==> SteadyKey(w.src, w.locs, a)
    ensures Transparent(w) <==> KeysAgree(w)
  {
    hide Outcome, Direct, SteadyKey, Transparent, Placed;
    TransparentIff(w);
    forall a, i: nat, v | a in w.locs
      ensures Outcome(w.src, w.locs, a, i, w.verify, Ok(v)) <==> Direct(w.src, a, i, w.verify) == Ok(v)
    {
      SteadyOutcome(w.src, w.locs, a, i, w.verify, Ok(v));
    }
    if Sound(w) {
      forall a, b, i: nat, j: nat | a in w.locs && b in w.locs && SharesKey(a, i, b, j) ensures Agree(w, a, i, b, j) {
        if Direct(w.src, a, i, w.verify).Ok? {
          assert RightEverywhere(w, a, i, Direct(w.src, a, i, w.verify).value);
        }
      }
    }
    if KeysAgree(w) {
      forall a, i: nat, v | a in w.locs && Outcome(w.src, w.locs, a, i, w.verify, Ok(v)) ensures RightEverywhere(w, a, i, v) {
        Unchecked(w.src, a, i, w.verify);
        forall b, j: nat | b in w.locs && SharesKey(a, i, b, j) ensures Agree(w, a, i, b, j) {
        }
      }
    }
  }

  /** The condition includes coherence of the cache key. */
  lemma SoundIsCoherent(w: Config)
    requires w.Valid() && Sound(w) && w.capacity >= 0x8000
    ensures Coherent(w.src, w.locs, w.verify)
  {
    hide Direct, Placed, Outcome;
    forall a, b, i: nat, j: nat | a in w.locs && b in w.locs && SharesKey(a, i, b, j) && !a.record.mode.Plain?
      ensures Covers(w.src, w.locs, w.verify, a, i, b, j)
    {
      forall v | Outcome(w.src, w.locs, a, i, w.verify, Ok(v)) ensures Outcome(w.src, w.locs, b, j, false, Ok(v)) {
        DecodedLength(w.src, w.locs, a, i, w.verify, v);
        assert RightEverywhere(w, a, i, v);
        DirectIsOutcome(w.src, w.locs, b, j, false);
      }
    }
  }

  // ---- two records under one key -----------------------------------------

  /** A dat of two bytes; inflation and decryption change nothing, a block's
      checksum is its length, and depot 5 has a key. */
  function Example(): Source {
    Source(Codec(z => Stream(z, true), (k, x) => x, x => |x| % 0x1_0000_0000, x => 0),
           KeyStore(map[5 := AesKey([1])], map[], map[], []), false,
           Dump([BlobEntry(5, 0, 0, None)], map[5 := [0]], map[], [Err(Other("unused"))]),
           [DatEntry(5, 0, 0, 2, false)], [[7, 8]])
  }

  /** A file of `n` bytes in one block at the start of the dat. */
  function Compact(n: u32): FileLoc {
    FileLoc(0, Some(0), FileRecord(1, Compressed, 0, n, [Block(n, n)]), [0, n])
  }

  lemma CompactPlaced(n: u32)
    requires 1 <= n <= 2
    ensures Example().Valid() && Placed(Example(), Compact(n)) && HasBlock(Compact(n), 0)
    ensures Raw(Example(), Compact(n), 0) == Ok([7, 8][..n])
  {
    var src, loc := Example(), Compact(n);
    assert Contiguous(loc.record, 1, loc.offsets);
    assert Stored(src, 0) == [7, 8];
    assert Clip([7, 8], 0, n) == [7, 8][..n];
  }

  lemma CompactFinish(n: u32, raw: seq<byte>, r: Resolution, verify: bool)
    requires 1 <= n <= 2 && |raw| == n && Example().Valid() && Placed(Example(), Compact(n))
    ensures Finish(Example(), Compact(n), 0, raw, r, verify) == Ok(raw)
  {
    hide Placed, Raw;
  }

  lemma CompactDecodes(n: u32)
    requires 1 <= n <= 2
    ensures Example().Valid() && Placed(Example(), Compact(n)) && HasBlock(Compact(n), 0)
    ensures Direct(Example(), Compact(n), 0, false) == Direct(Example(), Compact(n), 0, true) == Ok([7, 8][..n])
  {
    hide Placed, Raw, Finish, Answer;
    CompactPlaced(n);
    var raw := [7, 8][..n];
    forall r, verify ensures Finish(Example(), Compact(n), 0, raw, r, verify) == Ok(raw) {
      CompactFinish(n, raw, r, verify);
    }
  }

  function SharedKey(): Config {
    Config(Example(), {Compact(1), Compact(2)}, true, 1)
  }

  /** Two records share the key (0, 0) and differ in length: after the shorter
      one, the longer one is served one byte instead of two. */
  lemma SharedKeyMisleads() returns (s: System)
    ensures SharedKey().Valid() && Reachable(SharedKey(), s)
    ensures |s.answers| > 0 && s.answers[|s.answers| - 1] == Handed(Compact(2), 0, Ok([7]))
    ensures Direct(Example(), Compact(2), 0, false) == Ok([7, 8])
  {
    hide Direct, Placed, Outcome, Reachable;
    CompactDecodes(1);
    CompactDecodes(2);
    assert [7, 8][..2] == [7, 8] && [7, 8][..1] == [7];
    var w := SharedKey();
    DirectIsOutcome(w.src, w.locs, Compact(1), 0, true);
    s := CachedIsServed(w, Compact(1), 0, [7], Compact(2), 0);
  }

  // ---- a remembered key --------------------------------------------------

  /** A one-byte encrypted file at `at`, with the given stored checksum. */
  function Sealed(at: u32, sum: u32): FileLoc {
    FileLoc(0, Some(0), FileRecord(at, Encrypted, at, 1, [Block(1, sum)]), [at, at + 1])
  }

  /** The second file's checksum is wrong; nothing is verified on reading. */
  function OneDamaged(capacity: nat): Config {
    Config(Example(), {Sealed(0, 1), Sealed(1, 0)}, false, capacity)
  }

  lemma SealedPlaced(at: u32, sum: u32)
    requires at <= 1
    ensures Example().Valid() && Placed(Example(), Sealed(at, sum)) && HasBlock(Sealed(at, sum), 0)
    ensures Raw(Example(), Sealed(at, sum), 0) == Ok([7 + at])
  {
    var src, loc := Example(), Sealed(at, sum);
    assert Contiguous(loc.record, 1, loc.offsets);
    assert Stored(src, 0) == [7, 8];
    assert Clip([7, 8], at, at + 1) == [7 + at];
  }

  lemma SealedAnswers(at: u32, sum: u32, raw: seq<byte>)
    requires at <= 1 && |raw| == 1
    ensures Answer(Example().codec, Example().keys, false, BlobEntry(5, 0, 0, None), SampleOf(Sealed(at, sum), 0, raw))
         == if sum == 1 then Configured(AesKey([1])) else Resolution.NoKey(0)
  {
  }

  lemma SealedFinish(at: u32, sum: u32, raw: seq<byte>)
    requires at <= 1 && |raw| == 1 && Example().Valid() && Placed(Example(), Sealed(at, sum))
    ensures Finish(Example(), Sealed(at, sum), 0, raw, Configured(AesKey([1])), false) == Ok(raw)
    ensures Finish(Example(), Sealed(at, sum), 0, raw, Resolution.NoKey(0), false) == Err(ReadError.NoKey(5))
  {
  }

  /** One thread asks for the intact file and then for the damaged one: the
      key remembered from the first serves the second, whose own block no key
      opens. No cache key is shared. */
  lemma RememberedKeyServesDamaged(capacity: nat) returns (s: System)
    ensures OneDamaged(capacity).Valid() && Reachable(OneDamaged(capacity), s)
    ensures |s.answers| == 2 && s.answers[1] == Handed(Sealed(1, 0), 0, Ok([8]))
    ensures Direct(Example(), Sealed(1, 0), 0, false) == Err(ReadError.NoKey(5))
    ensures !SharesKey(Sealed(0, 1), 0, Sealed(1, 0), 0)
  {
    var w, a, b := OneDamaged(capacity), Sealed(0, 1), Sealed(1, 0);
    SealedPlaced(0, 1);
    SealedPlaced(1, 0);
    SealedAnswers(0, 1, [7]);
    SealedAnswers(1, 0, [8]);
    SealedFinish(0, 1, [7]);
    SealedFinish(1, 0, [8]);
    assert w.src.dump.entries[0] == BlobEntry(5, 0, 0, None);
    s := AskTwice(w, a, b, [7], [8]);
  }

  lemma AskTwice(w: Config, a: FileLoc, b: FileLoc, u: seq<byte>, v: seq<byte>) returns (s: System)
    requires w.Valid() && a in w.locs && b in w.locs && HasBlock(a, 0) && HasBlock(b, 0) && KeyOfBlock(a, 0) != KeyOfBlock(b, 0)
    requires Placed(w.src, a) && Placed(w.src, b) && Raw(w.src, a, 0).Ok? && Raw(w.src, b, 0).Ok?
    requires a.record.mode.IsEncrypted() && b.record.mode.IsEncrypted() && a.source == b.source
    requires var r := Answer(w.src.codec, w.src.keys, w.src.search, w.src.dump.entries[a.source], SampleOf(a, 0, Raw(w.src, a, 0).value));
      && Finish(w.src, a, 0, Raw(w.src, a, 0).value, r, w.verify) == Ok(u)
      && Finish(w.src, b, 0, Raw(w.src, b, 0).value, r, w.verify) == Ok(v)
    ensures Reachable(w, s) && s.answers == [Handed(a, 0, Ok(u)), Handed(b, 0, Ok(v))]
  {
    hide Raw, Answer, Finish, Reachable, Placed, Inserted;
    ReachStart(w);
    s := System([], map[], map[], []);
    AskMiss(w, s, 0, a, 0);
    s := Move(s, 0, Missed(a, 0));
    var r := ResolveAlone(w, s, 0, a, 0);
    s := System(s.blocks, s.memo[a.source := r], s.threads[0 := Keyed(a, 0, r)], s.answers);
    ServeKeyed(w, s, 0, a, 0, r, u);
    s := AfterServing(w, s, 0, a, 0, u);
    InsertEffect([], KeyOfBlock(a, 0), u, w.capacity);
    OversizedInsert([], KeyOfBlock(a, 0), u, w.capacity);
    AskMiss(w, s, 0, b, 0);
    s := Move(s, 0, Missed(b, 0));
    var q := UseRemembered(w, s, 0, b, 0);
    s := Move(s, 0, Keyed(b, 0, q));
    ServeKeyed(w, s, 0, b, 0, q, v);
    s := AfterServing(w, s, 0, b, 0, v);
  }
}

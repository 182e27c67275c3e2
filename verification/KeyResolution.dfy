/** Which key decrypts a blob's data (`resolve_key` in src/store.rs and the
    key store in src/keys/mod.rs). */
module KeyResolution {
  import opened Wrappers
  import opened Bytes
  import opened Checksums
  import opened Chunks
  import opened Depots

  /** `table` is the built-in table; `candidates` lists every known key with
      the depot of its label, in the order a search tries them. */
  datatype KeyStore = KeyStore(
    overrides: map<u32, AesKey>,
    blobOverrides: map<(u32, u32), AesKey>,
    table: map<u32, AesKey>,
    candidates: seq<(u32, AesKey)>)
  {
    function Get(depot: u32): Option<AesKey> {
      if depot in overrides then Some(overrides[depot])
      else if depot in table then Some(table[depot])
      else None
    }

    /** A blob-specific override wins over the depot key. */
    function GetForBlob(depot: u32, crc: u32): Option<AesKey> {
      if (depot, crc) in blobOverrides then Some(blobOverrides[(depot, crc)]) else Get(depot)
    }
  }

  /** One raw encrypted block with its mode and stored checksum. */
  datatype Sample = Sample(mode: Mode, raw: seq<byte>, expected: u32)

  datatype Resolution = Configured(key: AesKey) | Discovered(key: AesKey, from: u32) | NoKey(tried: nat)

  function KeyOf(r: Resolution): Option<AesKey> {
    if r.NoKey? then None else Some(r.key)
  }

  predicate Works(c: Codec, s: Sample, k: AesKey) {
    DecodeVerified(c, s.mode, s.raw, Some(k), s.expected).Ok?
  }

  /** What one resolution from scratch must answer. */
  ghost predicate Resolves(c: Codec, keys: KeyStore, search: bool, e: BlobEntry, s: Sample, r: Resolution) {
    var configured := keys.GetForBlob(e.depot, e.crc);
    if configured.Some? && Works(c, s, configured.value) then r == Configured(configured.value)
    else if !search then r == NoKey(0)
    else
      match r
      case Configured(_) => false
      case Discovered(k, from) =>
        exists i :: 0 <= i < |keys.candidates| && keys.candidates[i] == (from, k) && Works(c, s, k)
                    && forall j :: 0 <= j < i ==> !Works(c, s, keys.candidates[j].1)
      case NoKey(tried) =>
        tried == |keys.candidates| && forall j :: 0 <= j < |keys.candidates| ==> !Works(c, s, keys.candidates[j].1)
  }

  /** The first candidate from `i` on that opens the sample. */
  function FirstCandidate(c: Codec, cs: seq<(u32, AesKey)>, s: Sample, i: nat): (r: Resolution)
    requires i <= |cs|
    decreases |cs| - i
  {
    if i == |cs| then NoKey(|cs|)
    else if Works(c, s, cs[i].1) then Discovered(cs[i].1, cs[i].0)
    else FirstCandidate(c, cs, s, i + 1)
  }

  /** Candidate `n` is the first from `i` on that opens the sample. */
  ghost predicate FirstFrom(c: Codec, cs: seq<(u32, AesKey)>, s: Sample, i: nat, n: nat) {
    i <= n < |cs| && Works(c, s, cs[n].1) && forall j :: i <= j < n ==> !Works(c, s, cs[j].1)
  }

  lemma {:induction false} FirstCandidateMeaning(c: Codec, cs: seq<(u32, AesKey)>, s: Sample, i: nat)
    requires i <= |cs|
    ensures match FirstCandidate(c, cs, s, i)
      case Configured(_) => false
      case NoKey(tried) => tried == |cs| && forall j :: i <= j < |cs| ==> !Works(c, s, cs[j].1)
      case Discovered(k, from) => exists n: nat :: FirstFrom(c, cs, s, i, n) && cs[n] == (from, k)
    decreases |cs| - i
  {
    hide Works;
    if i < |cs| {
      if Works(c, s, cs[i].1) {
        assert FirstFrom(c, cs, s, i, i);
      } else {
        FirstCandidateMeaning(c, cs, s, i + 1);
        forall n: nat | FirstFrom(c, cs, s, i + 1, n) ensures FirstFrom(c, cs, s, i, n) {
        }
      }
    }
  }

  /** The answer of one resolution from scratch. */
  function Answer(c: Codec, keys: KeyStore, search: bool, e: BlobEntry, s: Sample): (r: Resolution)
    ensures Resolves(c, keys, search, e, s, r)
  {
    var configured := keys.GetForBlob(e.depot, e.crc);
    if configured.Some? && Works(c, s, configured.value) then Configured(configured.value)
    else if !search then NoKey(0)
    else
      FirstCandidateMeaning(c, keys.candidates, s, 0);
      FirstCandidate(c, keys.candidates, s, 0)
  }

  /** Tries the configured key, then, if allowed, every candidate in turn. */
  method Search(c: Codec, keys: KeyStore, search: bool, e: BlobEntry, s: Sample) returns (r: Resolution)
    ensures Resolves(c, keys, search, e, s, r)
  {
    hide Works;
    r := NoKey(0);
    var configured := keys.GetForBlob(e.depot, e.crc);
    if configured.Some? && Works(c, s, configured.value) {
      r := Configured(configured.value);
    }
    if r.NoKey? && search {
      var tried := 0;
      for i := 0 to |keys.candidates|
        invariant r.NoKey? && tried == i
        invariant forall j :: 0 <= j < i ==> !Works(c, s, keys.candidates[j].1)
      {
        tried := tried + 1;
        var (from, k) := keys.candidates[i];
        if Works(c, s, k) {
          r := Discovered(k, from);
          return;
        }
      }
      r := NoKey(tried);
    }
  }

  /** What an answer tells a caller about the sample it was found on: a key
      opened it; with searching on, no key means none of them does. */
  ghost predicate Tells(c: Codec, keys: KeyStore, search: bool, e: BlobEntry, s: Sample, r: Resolution) {
    && (KeyOf(r).Some? ==> Works(c, s, KeyOf(r).value))
    && (r.NoKey? ==> forall k :: Some(k) == keys.GetForBlob(e.depot, e.crc) ==> !Works(c, s, k))
    && (r.NoKey? && search ==>
          r.tried == |keys.candidates| && forall i :: 0 <= i < |keys.candidates| ==> !Works(c, s, keys.candidates[i].1))
  }

  lemma ResolutionMeaning(c: Codec, keys: KeyStore, search: bool, e: BlobEntry, s: Sample, r: Resolution)
    requires Resolves(c, keys, search, e, s, r)
    ensures Tells(c, keys, search, e, s, r)
  {
  }

  /** The first of the blob's own override, the depot's override and the table
      key that exists. */
  ghost predicate IsConfigured(keys: KeyStore, e: BlobEntry, k: AesKey) {
    || ((e.depot, e.crc) in keys.blobOverrides && k == keys.blobOverrides[(e.depot, e.crc)])
    || ((e.depot, e.crc) !in keys.blobOverrides && e.depot in keys.overrides && k == keys.overrides[e.depot])
    || ((e.depot, e.crc) !in keys.blobOverrides && e.depot !in keys.overrides && e.depot in keys.table && k == keys.table[e.depot])
  }

  /** The key that is tried first is that one: whenever it opens the sample it
      is every right answer, and no other key is ever answered as configured. */
  lemma ConfiguredKeyWins(c: Codec, keys: KeyStore, search: bool, e: BlobEntry, s: Sample, r: Resolution)
    requires Resolves(c, keys, search, e, s, r)
    ensures forall k :: IsConfigured(keys, e, k) && Works(c, s, k) ==> r == Configured(k)
    ensures r.Configured? ==> IsConfigured(keys, e, r.key) && Works(c, s, r.key)
  {
    hide Works;
  }

  /** The candidates are all known keys: each is from one of the three sources,
      under its depot, and none is missing. */
  ghost predicate ListsAll(keys: KeyStore) {
    && (forall i :: 0 <= i < |keys.candidates| ==>
          var (d, k) := keys.candidates[i];
          || (exists crc: u32 :: (d, crc) in keys.blobOverrides && keys.blobOverrides[(d, crc)] == k)
          || (d in keys.overrides && keys.overrides[d] == k) || (d in keys.table && keys.table[d] == k))
    && (forall d: u32, crc: u32 :: (d, crc) in keys.blobOverrides ==> (d, keys.blobOverrides[(d, crc)]) in keys.candidates)
    && (forall d: u32 :: d in keys.overrides ==> (d, keys.overrides[d]) in keys.candidates)
    && (forall d: u32 :: d in keys.table ==> (d, keys.table[d]) in keys.candidates)
  }

  /** With searching on, no key means that no key known for any depot or blob
      opens the sample. */
  lemma NoKnownKeyOpens(c: Codec, keys: KeyStore, e: BlobEntry, s: Sample, r: Resolution)
    requires Resolves(c, keys, true, e, s, r) && r.NoKey? && ListsAll(keys)
    ensures forall d: u32, crc: u32 :: (d, crc) in keys.blobOverrides ==> !Works(c, s, keys.blobOverrides[(d, crc)])
    ensures forall d: u32 :: d in keys.overrides ==> !Works(c, s, keys.overrides[d])
    ensures forall d: u32 :: d in keys.table ==> !Works(c, s, keys.table[d])
  {
    hide Works;
    forall k | k in keys.candidates ensures !Works(c, s, k.1) {
      var i :| 0 <= i < |keys.candidates| && keys.candidates[i] == k;
    }
  }

  /** A sample has one right answer. */
  lemma ResolutionUnique(c: Codec, keys: KeyStore, search: bool, e: BlobEntry, s: Sample, r: Resolution, q: Resolution)
    requires Resolves(c, keys, search, e, s, r) && Resolves(c, keys, search, e, s, q)
    ensures r == q
  {
    hide Works;
    if r.Discovered? && q.Discovered? {
      var i :| 0 <= i < |keys.candidates| && keys.candidates[i] == (r.from, r.key) && Works(c, s, r.key)
               && forall j :: 0 <= j < i ==> !Works(c, s, keys.candidates[j].1);
      var i' :| 0 <= i' < |keys.candidates| && keys.candidates[i'] == (q.from, q.key) && Works(c, s, q.key)
               && forall j :: 0 <= j < i' ==> !Works(c, s, keys.candidates[j].1);
      assert i == i';
    }
  }

  // ---- when several samples resolve alike --------------------------------

  /** The keys a resolution tries, in order. */
  function TryOrder(keys: KeyStore, search: bool, e: BlobEntry): (t: seq<AesKey>) {
    var configured := keys.GetForBlob(e.depot, e.crc);
    (if configured.Some? then [configured.value] else [])
    + if search then seq(|keys.candidates|, i requires 0 <= i < |keys.candidates| => keys.candidates[i].1) else []
  }

  /** Key `n` is the first in the order that opens the sample. */
  ghost predicate OpensFirst(c: Codec, s: Sample, t: seq<AesKey>, n: nat) {
    n < |t| && Works(c, s, t[n]) && forall m :: 0 <= m < n ==> !Works(c, s, t[m])
  }

  ghost predicate OpensNone(c: Codec, s: Sample, t: seq<AesKey>) {
    forall n :: 0 <= n < |t| ==> !Works(c, s, t[n])
  }

  ghost predicate OpensAllFirst(c: Codec, samples: set<Sample>, t: seq<AesKey>, n: nat) {
    forall s :: s in samples ==> OpensFirst(c, s, t, n)
  }

  /** One key opens every sample and none tried before it opens any; or no key
      opens any. */
  ghost predicate OneKeyForAll(c: Codec, keys: KeyStore, search: bool, e: BlobEntry, samples: set<Sample>) {
    var t := TryOrder(keys, search, e);
    || (exists n: nat :: OpensAllFirst(c, samples, t, n))
    || (forall s :: s in samples ==> OpensNone(c, s, t))
  }

  /** The answer that key `n` of the order stands for. */
  function Label(keys: KeyStore, search: bool, e: BlobEntry, n: nat): Resolution
    requires n < |TryOrder(keys, search, e)|
  {
    var configured := keys.GetForBlob(e.depot, e.crc);
    if configured.Some? && n == 0 then Configured(configured.value)
    else
      var i := if configured.Some? then n - 1 else n;
      Discovered(keys.candidates[i].1, keys.candidates[i].0)
  }

  lemma {:induction false} Opener(c: Codec, s: Sample, t: seq<AesKey>, k: nat) returns (n: nat)
    requires k <= |t|
    ensures (n < k && OpensFirst(c, s, t, n)) || (n == k && forall m :: 0 <= m < k ==> !Works(c, s, t[m]))
  {
    hide Works;
    if k == 0 {
      n := 0;
    } else {
      n := Opener(c, s, t, k - 1);
      if n == k - 1 && !Works(c, s, t[k - 1]) {
        n := k;
      }
    }
  }

  lemma LabelIsAnswer(c: Codec, keys: KeyStore, search: bool, e: BlobEntry, s: Sample, n: nat)
    requires OpensFirst(c, s, TryOrder(keys, search, e), n)
    ensures Answer(c, keys, search, e, s) == Label(keys, search, e, n)
  {
    hide Works, Answer;
    var t := TryOrder(keys, search, e);
    var configured := keys.GetForBlob(e.depot, e.crc);
    var off := if configured.Some? then 1 else 0;
    if n >= off {
      var i := n - off;
      forall j | 0 <= j < i ensures !Works(c, s, keys.candidates[j].1) {
        assert t[j + off] == keys.candidates[j].1;
      }
      assert off == 1 ==> t[0] == configured.value;
      assert Resolves(c, keys, search, e, s, Label(keys, search, e, n));
    }
    ResolutionUnique(c, keys, search, e, s, Answer(c, keys, search, e, s), Label(keys, search, e, n));
  }

  lemma NoOpenerNoKey(c: Codec, keys: KeyStore, search: bool, e: BlobEntry, s: Sample)
    requires OpensNone(c, s, TryOrder(keys, search, e))
    ensures Answer(c, keys, search, e, s) == NoKey(if search then |keys.candidates| else 0)
  {
    hide Works, Answer;
    var t := TryOrder(keys, search, e);
    var configured := keys.GetForBlob(e.depot, e.crc);
    var off := if configured.Some? then 1 else 0;
    assert off == 1 ==> t[0] == configured.value;
    if search {
      forall j | 0 <= j < |keys.candidates| ensures !Works(c, s, keys.candidates[j].1) {
        assert t[j + off] == keys.candidates[j].1;
      }
    }
    var none := NoKey(if search then |keys.candidates| else 0);
    assert Resolves(c, keys, search, e, s, none);
    ResolutionUnique(c, keys, search, e, s, Answer(c, keys, search, e, s), none);
  }

  /** Equal answers come from the same place in the order. */
  lemma SamePlace(c: Codec, keys: KeyStore, search: bool, e: BlobEntry, x: Sample, y: Sample, n: nat)
    requires OpensFirst(c, x, TryOrder(keys, search, e), n)
    requires Answer(c, keys, search, e, x) == Answer(c, keys, search, e, y)
    ensures OpensFirst(c, y, TryOrder(keys, search, e), n)
  {
    hide Works, Answer, Label;
    var t := TryOrder(keys, search, e);
    LabelIsAnswer(c, keys, search, e, x, n);
    LabelKey(keys, search, e, n);
    var m := Opener(c, y, t, |t|);
    if m < |t| {
      LabelIsAnswer(c, keys, search, e, y, m);
      LabelKey(keys, search, e, m);
      assert t[m] == t[n];
      assert m == n;
    } else {
      NoOpenerNoKey(c, keys, search, e, y);
      assert false;
    }
  }

  lemma LabelKey(keys: KeyStore, search: bool, e: BlobEntry, n: nat)
    requires n < |TryOrder(keys, search, e)|
    ensures KeyOf(Label(keys, search, e, n)) == Some(TryOrder(keys, search, e)[n])
  {
  }

  ghost predicate SameAnswers(c: Codec, keys: KeyStore, search: bool, e: BlobEntry, samples: set<Sample>) {
    forall x, y :: x in samples && y in samples ==> Answer(c, keys, search, e, x) == Answer(c, keys, search, e, y)
  }

  /** Samples resolve alike exactly when one key serves them all. */
  lemma AnswersAgreeIff(c: Codec, keys: KeyStore, search: bool, e: BlobEntry, samples: set<Sample>)
    ensures SameAnswers(c, keys, search, e, samples) <==> OneKeyForAll(c, keys, search, e, samples)
  {
    hide Answer, OpensFirst, OpensNone;
    var t := TryOrder(keys, search, e);
    if OneKeyForAll(c, keys, search, e, samples) {
      ServedAlike(c, keys, search, e, samples);
    }
    if SameAnswers(c, keys, search, e, samples) && samples != {} {
      var x :| x in samples;
      AlikeIsServed(c, keys, search, e, samples, x);
    }
  }

  lemma ServedAlike(c: Codec, keys: KeyStore, search: bool, e: BlobEntry, samples: set<Sample>)
    requires OneKeyForAll(c, keys, search, e, samples)
    ensures SameAnswers(c, keys, search, e, samples)
  {
    hide Answer, OpensFirst, OpensNone, Label;
    var t := TryOrder(keys, search, e);
    if n: nat :| OpensAllFirst(c, samples, t, n) {
      forall s | s in samples ensures n < |t| && Answer(c, keys, search, e, s) == Label(keys, search, e, n) {
        FirstInRange(c, s, t, n);
        LabelIsAnswer(c, keys, search, e, s, n);
      }
    } else {
      forall s | s in samples ensures Answer(c, keys, search, e, s) == NoKey(if search then |keys.candidates| else 0) {
        NoOpenerNoKey(c, keys, search, e, s);
      }
    }
  }

  lemma FirstInRange(c: Codec, s: Sample, t: seq<AesKey>, n: nat)
    requires OpensFirst(c, s, t, n)
    ensures n < |t|
  {
  }

  lemma AlikeIsServed(c: Codec, keys: KeyStore, search: bool, e: BlobEntry, samples: set<Sample>, x: Sample)
    requires SameAnswers(c, keys, search, e, samples) && x in samples
    ensures OneKeyForAll(c, keys, search, e, samples)
  {
    hide Answer, Works, Label;
    var t := TryOrder(keys, search, e);
    var n := Opener(c, x, t, |t|);
    if n < |t| {
      forall s | s in samples ensures OpensFirst(c, s, t, n) {
        SamePlace(c, keys, search, e, x, s, n);
      }
      assert OpensAllFirst(c, samples, t, n);
    } else {
      assert OpensNone(c, x, t);
      forall s | s in samples ensures OpensNone(c, s, t) {
        var m := Opener(c, s, t, |t|);
        if m < |t| {
          SamePlace(c, keys, search, e, s, x, m);
          assert false;
        }
      }
    }
  }

  // ---- runs --------------------------------------------------------------

  /** What resolutions depend on. */
  datatype Setup = Setup(codec: Codec, keys: KeyStore, search: bool, entries: seq<BlobEntry>) {
    function Find(b: BlobId, s: Sample): Resolution {
      if b < |entries| then Answer(codec, keys, search, entries[b], s) else NoKey(0)
    }

    ghost predicate RightFor(b: BlobId, s: Sample, r: Resolution) {
      b < |entries| && Resolves(codec, keys, search, entries[b], s, r)
    }
  }

  /** What a run of whole calls leaves in the memo and answers. */
  function Calls(w: Setup, calls: seq<(BlobId, Sample)>): (map<BlobId, Resolution>, seq<Resolution>) {
    if calls == [] then (map[], [])
    else
      var (memo, answers) := Calls(w, calls[..|calls| - 1]);
      var (b, x) := calls[|calls| - 1];
      if b in memo then (memo, answers + [memo[b]])
      else (memo[b := w.Find(b, x)], answers + [w.Find(b, x)])
  }

  /** Where a blob is first asked for. */
  function First(calls: seq<(BlobId, Sample)>, b: BlobId): (r: Option<nat>)
    ensures r.Some? ==> r.value < |calls| && calls[r.value].0 == b && forall j :: 0 <= j < r.value ==> calls[j].0 != b
    ensures r.None? ==> forall j :: 0 <= j < |calls| ==> calls[j].0 != b
  {
    if calls == [] then None
    else
      var n := |calls| - 1;
      var r := First(calls[..n], b);
      if r.Some? then r else if calls[n].0 == b then Some(n) else None
  }

  ghost predicate Remembered(w: Setup, calls: seq<(BlobId, Sample)>, memo: map<BlobId, Resolution>) {
    forall b :: (if b in memo then Some(memo[b]) else None) ==
                 if First(calls, b).Some? then Some(w.Find(b, calls[First(calls, b).value].1)) else None
  }

  lemma {:induction false} MemoKeepsFirst(w: Setup, calls: seq<(BlobId, Sample)>)
    ensures Remembered(w, calls, Calls(w, calls).0)
  {
    hide Setup.Find;
    if calls != [] {
      MemoKeepsFirst(w, calls[..|calls| - 1]);
    }
  }

  lemma {:induction false} AnswerOfFirst(w: Setup, calls: seq<(BlobId, Sample)>, i: nat)
    requires i < |calls|
    ensures |Calls(w, calls).1| == |calls| && First(calls, calls[i].0).Some?
    ensures Calls(w, calls).1[i] == w.Find(calls[i].0, calls[First(calls, calls[i].0).value].1)
  {
    hide Setup.Find;
    var n := |calls| - 1;
    var before := calls[..n];
    MemoKeepsFirst(w, before);
    if n > 0 {
      AnswerOfFirst(w, before, if i < n then i else 0);
    }
  }

  /** With calls atomic, every answer for a blob is the right one for the
      sample of its first call: an answered key opened that sample, and with
      searching on no key means that all of them failed on it. */
  lemma FirstAnswerStays(w: Setup, calls: seq<(BlobId, Sample)>, i: nat)
    requires i < |calls| && calls[i].0 < |w.entries|
    ensures |Calls(w, calls).1| == |calls| && First(calls, calls[i].0).Some?
    ensures var first := calls[First(calls, calls[i].0).value].1;
      && w.RightFor(calls[i].0, first, Calls(w, calls).1[i])
      && Tells(w.codec, w.keys, w.search, w.entries[calls[i].0], first, Calls(w, calls).1[i])
  {
    hide Answer, Calls, Works;
    AnswerOfFirst(w, calls, i);
  }

  // ---- concurrent callers ------------------------------------------------

  /** `resolve_key` takes the lock twice: once to look, once to store. */
  datatype Step = Look(thread: nat, source: BlobId, sample: Sample) | Store(thread: nat)

  datatype Race = Race(
    resolved: map<BlobId, Resolution>,
    busy: map<nat, (BlobId, Sample)>,
    answers: seq<(BlobId, Resolution)>)

  function Take(w: Setup, s: Race, step: Step): Race {
    match step
    case Look(t, b, x) =>
      if t in s.busy || b >= |w.entries| then s
      else if b in s.resolved then s.(answers := s.answers + [(b, s.resolved[b])])
      else s.(busy := s.busy[t := (b, x)])
    case Store(t) =>
      if t !in s.busy then s
      else
        var (b, x) := s.busy[t];
        Race(s.resolved[b := w.Find(b, x)], s.busy - {t}, s.answers + [(b, w.Find(b, x))])
  }

  function Play(w: Setup, steps: seq<Step>): Race {
    if steps == [] then Race(map[], map[], [])
    else Take(w, Play(w, steps[..|steps| - 1]), steps[|steps| - 1])
  }

  /** Callers that do not overlap: each looks and stores before the next. */
  function InTurn(calls: seq<(BlobId, Sample)>): (steps: seq<Step>)
    ensures |steps| == 2 * |calls|
  {
    if calls == [] then []
    else
      var (b, x) := calls[|calls| - 1];
      InTurn(calls[..|calls| - 1]) + [Look(0, b, x), Store(0)]
  }

  /** Taken in turn, they are answered as whole calls are. */
  lemma {:induction false} InTurnIsAtomic(w: Setup, calls: seq<(BlobId, Sample)>)
    requires forall i :: 0 <= i < |calls| ==> calls[i].0 < |w.entries|
    ensures var s := Play(w, InTurn(calls)); var (memo, answers) := Calls(w, calls);
      && s.resolved == memo && s.busy == map[] && |s.answers| == |answers| == |calls|
      && forall i :: 0 <= i < |calls| ==> s.answers[i] == (calls[i].0, answers[i])
  {
    hide Setup.Find;
    if calls != [] {
      var before := calls[..|calls| - 1];
      var (b, x) := calls[|calls| - 1];
      InTurnIsAtomic(w, before);
      var steps := InTurn(before);
      PlaySnoc(w, steps, Look(0, b, x));
      PlaySnoc(w, steps + [Look(0, b, x)], Store(0));
      assert InTurn(calls) == steps + [Look(0, b, x)] + [Store(0)];
      TurnAnswers(w, Play(w, steps), b, x);
    }
  }

  lemma PlaySnoc(w: Setup, steps: seq<Step>, step: Step)
    ensures Play(w, steps + [step]) == Take(w, Play(w, steps), step)
  {
    hide Take;
    assert (steps + [step])[..|steps|] == steps;
  }

  lemma TurnAnswers(w: Setup, s: Race, b: BlobId, x: Sample)
    requires s.busy == map[] && b < |w.entries|
    ensures var end := Take(w, Take(w, s, Look(0, b, x)), Store(0)); var r := if b in s.resolved then s.resolved[b] else w.Find(b, x);
      end.busy == map[] && end.resolved == s.resolved[b := r] && end.answers == s.answers + [(b, r)]
  {
    hide Setup.Find;
  }

  /** Some caller presented sample `x` of blob `b`. */
  ghost predicate Presented(steps: seq<Step>, b: BlobId, x: Sample) {
    exists i :: 0 <= i < |steps| && steps[i].Look? && steps[i].source == b && steps[i].sample == x
  }

  ghost predicate Backed(w: Setup, steps: seq<Step>, b: BlobId, r: Resolution) {
    exists x :: Presented(steps, b, x) && b < |w.entries| && r == w.Find(b, x)
  }

  ghost predicate RaceInv(w: Setup, steps: seq<Step>, s: Race) {
    && (forall t :: t in s.busy ==> s.busy[t].0 < |w.entries| && Presented(steps, s.busy[t].0, s.busy[t].1))
    && (forall b :: b in s.resolved ==> Backed(w, steps, b, s.resolved[b]))
    && (forall i :: 0 <= i < |s.answers| ==> Backed(w, steps, s.answers[i].0, s.answers[i].1))
  }

  lemma PresentedLonger(w: Setup, steps: seq<Step>, step: Step, b: BlobId, x: Sample)
    requires Presented(steps, b, x)
    ensures Presented(steps + [step], b, x)
  {
    var i :| 0 <= i < |steps| && steps[i].Look? && steps[i].source == b && steps[i].sample == x;
    assert (steps + [step])[i] == steps[i];
  }

  lemma InvLonger(w: Setup, steps: seq<Step>, step: Step, s: Race)
    requires RaceInv(w, steps, s)
    ensures RaceInv(w, steps + [step], s)
  {
    hide Presented, Setup.Find;
    forall b, x | Presented(steps, b, x) ensures Presented(steps + [step], b, x) {
      PresentedLonger(w, steps, step, b, x);
    }
  }

  lemma TakeKeepsInv(w: Setup, steps: seq<Step>, s: Race, step: Step)
    requires RaceInv(w, steps, s) && (step.Look? ==> Presented(steps, step.source, step.sample))
    ensures RaceInv(w, steps, Take(w, s, step))
  {
    hide Presented, Setup.Find, Backed;
    if step.Store? && step.thread in s.busy {
      var (b, x) := s.busy[step.thread];
      BackedBy(w, steps, b, x);
    }
  }

  lemma BackedBy(w: Setup, steps: seq<Step>, b: BlobId, x: Sample)
    requires b < |w.entries| && Presented(steps, b, x)
    ensures Backed(w, steps, b, w.Find(b, x))
  {
  }

  lemma {:induction false} PlayInv(w: Setup, steps: seq<Step>)
    ensures RaceInv(w, steps, Play(w, steps))
  {
    if steps != [] {
      hide Setup.Find, Backed, RaceInv, Take;
      var before, step := steps[..|steps| - 1], steps[|steps| - 1];
      assert steps == before + [step];
      PlayInv(w, before);
      InvLonger(w, before, step, Play(w, before));
      assert steps[|steps| - 1].Look? ==> Presented(steps, step.source, step.sample);
      TakeKeepsInv(w, steps, Play(w, before), step);
    }
  }

  /** In every interleaving, every answer for a blob is the right one for some
      sample of that blob that a caller of the run presented. */
  lemma RaceAnswersRight(w: Setup, steps: seq<Step>, i: nat) returns (x: Sample)
    requires i < |Play(w, steps).answers|
    ensures var (b, r) := Play(w, steps).answers[i];
      Presented(steps, b, x) && w.RightFor(b, x, r) && Tells(w.codec, w.keys, w.search, w.entries[b], x, r)
  {
    hide Answer, Play, Works;
    PlayInv(w, steps);
    var (b, r) := Play(w, steps).answers[i];
    assert Backed(w, steps, b, r);
    x :| Presented(steps, b, x) && b < |w.entries| && r == w.Find(b, x);
  }

  ghost predicate AllAlike(s: Race, b: BlobId) {
    forall i, j :: 0 <= i < j < |s.answers| && s.answers[i].0 == b == s.answers[j].0 ==> s.answers[i].1 == s.answers[j].1
  }

  ghost predicate UsesOnly(steps: seq<Step>, samples: set<Sample>, b: BlobId) {
    forall x :: Presented(steps, b, x) ==> x in samples
  }

  /** All answers any caller ever gets for `b` are the same. */
  ghost predicate Steady(w: Setup, samples: set<Sample>, b: BlobId) {
    forall steps :: UsesOnly(steps, samples, b) ==> AllAlike(Play(w, steps), b)
  }

  /** With the lock released in between, answers for a blob stay the same in
      every run exactly when one key opens all of its samples and none tried
      earlier opens any, or no key opens any of them. */
  lemma AnswersSteadyIff(w: Setup, samples: set<Sample>, b: BlobId)
    requires b < |w.entries|
    ensures Steady(w, samples, b) <==> OneKeyForAll(w.codec, w.keys, w.search, w.entries[b], samples)
  {
    hide OneKeyForAll, SameAnswers, Steady;
    AnswersAgreeIff(w.codec, w.keys, w.search, w.entries[b], samples);
    if SameAnswers(w.codec, w.keys, w.search, w.entries[b], samples) {
      SteadyIfAlike(w, samples, b);
    } else {
      AlikeIfSteady(w, samples, b);
    }
  }

  lemma SteadyIfAlike(w: Setup, samples: set<Sample>, b: BlobId)
    requires b < |w.entries| && SameAnswers(w.codec, w.keys, w.search, w.entries[b], samples)
    ensures Steady(w, samples, b)
  {
    hide Answer, Play, UsesOnly, AllAlike;
    forall steps | UsesOnly(steps, samples, b) ensures AllAlike(Play(w, steps), b) {
      AlikeInRun(w, samples, b, steps);
    }
  }

  lemma AlikeIfSteady(w: Setup, samples: set<Sample>, b: BlobId)
    requires b < |w.entries| && !SameAnswers(w.codec, w.keys, w.search, w.entries[b], samples)
    ensures !Steady(w, samples, b)
  {
    hide Answer, Play, Presented, AllAlike;
    var x, y :| x in samples && y in samples && w.Find(b, x) != w.Find(b, y);
    RacersDiffer(w, b, x, y);
    OnlyRacers(b, x, y);
    assert UsesOnly(Racing(b, x, y), samples, b);
  }

  lemma AlikeInRun(w: Setup, samples: set<Sample>, b: BlobId, steps: seq<Step>)
    requires b < |w.entries| && SameAnswers(w.codec, w.keys, w.search, w.entries[b], samples)
    requires UsesOnly(steps, samples, b)
    ensures AllAlike(Play(w, steps), b)
  {
    hide Answer, Play, Presented;
    PlayInv(w, steps);
    var s := Play(w, steps);
    forall i, j | 0 <= i < j < |s.answers| && s.answers[i].0 == b == s.answers[j].0 ensures s.answers[i].1 == s.answers[j].1 {
      assert Backed(w, steps, b, s.answers[i].1) && Backed(w, steps, b, s.answers[j].1);
    }
  }

  lemma RacersDiffer(w: Setup, b: BlobId, x: Sample, y: Sample)
    requires b < |w.entries| && w.Find(b, x) != w.Find(b, y)
    ensures !AllAlike(Play(w, Racing(b, x, y)), b)
  {
    hide Answer, Play;
    RacersAnswers(w, b, x, y);
    var end := Play(w, Racing(b, x, y));
    assert end.answers[0].0 == b == end.answers[1].0;
  }

  /** Two threads look before either stores. */
  function Racing(b: BlobId, x: Sample, y: Sample): seq<Step> {
    [Look(0, b, x), Look(1, b, y), Store(0), Store(1)]
  }

  lemma OnlyRacers(b: BlobId, x: Sample, y: Sample)
    ensures forall z :: Presented(Racing(b, x, y), b, z) ==> z == x || z == y
  {
  }

  lemma RacersAnswers(w: Setup, b: BlobId, x: Sample, y: Sample)
    requires b < |w.entries|
    ensures Play(w, Racing(b, x, y)).answers == [(b, w.Find(b, x)), (b, w.Find(b, y))]
    ensures Play(w, Racing(b, x, y)).resolved == map[b := w.Find(b, y)]
  {
    hide Setup.Find;
    var s := Racing(b, x, y);
    assert s[..3][..2] == s[..2] && s[..2][..1] == s[..1] && s[..1][..0] == [];
    assert Play(w, s[..1]) == Race(map[], map[0 := (b, x)], []);
    assert Play(w, s[..2]) == Race(map[], map[0 := (b, x), 1 := (b, y)], []);
    assert Play(w, s[..3]) == Race(map[b := w.Find(b, x)], map[1 := (b, y)], [(b, w.Find(b, x))]);
  }

  // ---- a blob with one damaged block -------------------------------------

  /** One configured key; decryption changes nothing and a block's checksum is
      its length. */
  function Example(): Setup {
    Setup(Codec(z => Stream([], false), (k, x) => x, x => |x| % 0x1_0000_0000, x => 0),
          KeyStore(map[5 := AesKey([1])], map[], map[], []), false, [BlobEntry(5, 0, 0, None)])
  }

  function Intact(): Sample {
    Sample(Encrypted, [], 0)
  }

  /** The same block with a wrong stored checksum. */
  function Damaged(): Sample {
    Sample(Encrypted, [], 1)
  }

  lemma ExampleAnswers()
    ensures Example().Find(0, Intact()) == Configured(AesKey([1]))
    ensures Example().Find(0, Damaged()) == NoKey(0)
  {
  }

  /** Two threads that race on an intact and a damaged block of one blob are
      told different things, and the memo forgets the key that works. */
  lemma RacingThreadsDisagree()
    ensures var end := Play(Example(), Racing(0, Intact(), Damaged()));
      && end.answers == [(0, Configured(AesKey([1]))), (0, NoKey(0))]
      && end.resolved == map[0 := NoKey(0)]
  {
    hide Play;
    ExampleAnswers();
    RacersAnswers(Example(), 0, Intact(), Damaged());
  }

  /** Even without a race a damaged block that is asked for first denies the
      key to every other block of its blob. */
  lemma DamagedBlockLocksOut()
    ensures Calls(Example(), [(0, Damaged()), (0, Intact())]).1 == [NoKey(0), NoKey(0)]
    ensures Works(Example().codec, Intact(), AesKey([1]))
  {
    var calls: seq<(BlobId, Sample)> := [(0, Damaged()), (0, Intact())];
    ExampleAnswers();
    assert calls[..1] == [(0, Damaged())] && calls[..1][..0] == [];
    hide Setup.Find;
    assert Calls(Example(), []) == (map[], []);
    assert Calls(Example(), calls[..1]).0 == map[0 := NoKey(0)] && Calls(Example(), calls[..1]).1 == [NoKey(0)];
  }
}

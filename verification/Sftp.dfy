/** The pipelined SFTP read (src/backend/sftp.rs, `read_range`) against any
    server, following the reading rules of section 6.4 of
    draft-ietf-secsh-filexfer-02. */
module Sftp {
  import opened Wrappers
  import opened Bytes

  /** Bytes per request (`MAX_READ`, 64 KiB): request `i` of a batch starts
      this far from the batch's base. */
  function Start(i: nat): nat {
    i * 65_536
  }

  const MAX_READ: nat := 65_536
  const MAX_IN_FLIGHT: nat := 16

  datatype Reply = Data(data: seq<byte>) | Eof | Failure

  datatype Want = Want(at: nat, want: nat)

  /** A server answers request number `n` of the session for `want` bytes at
      `at`; the number lets equal requests get different answers. */
  type Server = (nat, nat, nat) -> Reply

  /** Bytes `[offset, offset + len)` of a file, cut off at its end. */
  function Slice(file: seq<byte>, offset: nat, len: nat): (s: seq<byte>) {
    if offset >= |file| then [] else file[offset..Min(offset + len, |file|)]
  }

  /** What the protocol lets a working server answer: some non-empty prefix
      of the range, or end-of-file (a status or an empty packet) exactly when
      the range starts at or past the end. */
  ghost predicate Allowed(file: seq<byte>, at: nat, want: nat, r: Reply) {
    match r
    case Data(d) => if at >= |file| then d == [] else d != [] && d <= Slice(file, at, want)
    case Eof => at >= |file|
    case Failure => false
  }

  ghost predicate Honest(file: seq<byte>, server: Server) {
    forall n: nat, at: nat, want: nat :: want > 0 ==> Allowed(file, at, want, server(n, at, want))
  }

  /** Every reply is one a working server may give, or a failure. */
  ghost predicate Fair(file: seq<byte>, server: Server) {
    forall n: nat, at: nat, want: nat :: want > 0 ==>
      server(n, at, want).Failure? || Allowed(file, at, want, server(n, at, want))
  }

  /** The requests of one batch: consecutive ranges covering what remains, at
      most `MAX_IN_FLIGHT` of them. */
  ghost predicate BatchOf(wants: seq<Want>, base: nat, remaining: nat) {
    && 0 < |wants| <= 16
    && forall i :: 0 <= i < |wants| ==>
         && Start(i) < remaining
         && wants[i] == Want(base + Start(i), Min(MAX_READ, remaining - Start(i)))
  }

  method PlanBatch(base: nat, remaining: nat) returns (wants: seq<Want>)
    requires remaining > 0
    ensures BatchOf(wants, base, remaining)
    ensures |wants| == 16 || Start(|wants|) >= remaining
  {
    wants := [];
    var i := 0;
    while i < MAX_IN_FLIGHT && Start(i) < remaining
      invariant 0 <= i <= MAX_IN_FLIGHT && |wants| == i
      invariant i > 0 || remaining > 0
      invariant forall j :: 0 <= j < i ==>
        && Start(j) < remaining
        && wants[j] == Want(base + Start(j), Min(MAX_READ, remaining - Start(j)))
    {
      wants := wants + [Want(base + Start(i), Min(MAX_READ, remaining - Start(i)))];
      i := i + 1;
    }
  }

  lemma SliceGrows(file: seq<byte>, offset: nat, done: nat, more: seq<byte>)
    requires offset + done < |file| && more <= Slice(file, offset + done, |more|)
    ensures Slice(file, offset, done) + more == Slice(file, offset, done + |more|)
  {
  }

  /** What one allowed reply means for the bytes collected so far. */
  lemma ReplyExtends(file: seq<byte>, base: nat, got: seq<byte>, want: nat, reply: Reply)
    requires want > 0 && Allowed(file, base + |got|, want, reply) && got == Slice(file, base, |got|)
    ensures !reply.Failure?
    ensures reply.Eof? || reply.data == [] ==> base + |got| >= |file|
    ensures reply.Data? ==> |reply.data| <= want && got + reply.data == Slice(file, base, |got + reply.data|)
  {
    if reply.Data? && reply.data != [] {
      SliceGrows(file, base, |got|, reply.data);
    }
  }

  /** How the scan of one batch's replies ended. */
  datatype Scan = Again | Ended | Failed

  ghost predicate AllAllowed(file: seq<byte>, wants: seq<Want>, replies: seq<Reply>)
    requires |wants| == |replies|
  {
    forall i :: 0 <= i < |wants| ==> replies[i].Failure? || Allowed(file, wants[i].at, wants[i].want, replies[i])
  }

  lemma WantAt(file: seq<byte>, base: nat, remaining: nat, wants: seq<Want>, replies: seq<Reply>, i: nat)
    requires |wants| == |replies| && i < |wants| && BatchOf(wants, base, remaining)
    ensures Start(i) < remaining
    ensures wants[i] == Want(base + Start(i), Min(MAX_READ, remaining - Start(i)))
    ensures AllAllowed(file, wants, replies) ==> replies[i].Failure? || Allowed(file, wants[i].at, wants[i].want, replies[i])
  {
  }

  /** A full reply brings the scan to where the next request starts. */
  lemma StartNext(i: nat, remaining: nat)
    ensures Start(i) < remaining ==> Min(Start(i), remaining) == Start(i)
    ensures Start(i) < remaining ==> Start(i) + Min(MAX_READ, remaining - Start(i)) == Min(Start(i + 1), remaining)
  {
  }

  /** Takes the replies of one batch strictly in order, up to the first short
      one. Whatever the server sent, a scan that asks for more made progress,
      and one that fails met a failed reply. */
  method TakeReplies(ghost file: seq<byte>, ghost base: nat, ghost remaining: nat, wants: seq<Want>, replies: seq<Reply>)
    returns (got: seq<byte>, scan: Scan)
    requires |wants| == |replies| && BatchOf(wants, base, remaining)
    ensures scan.Again? ==> got != []
    ensures scan.Failed? ==> exists i :: 0 <= i < |replies| && replies[i].Failure?
    ensures AllAllowed(file, wants, replies) && !scan.Failed? ==>
      && got == Slice(file, base, |got|) && |got| <= remaining
      && (scan.Ended? ==> base + |got| >= |file|)
  {
    ghost var honest := AllAllowed(file, wants, replies);
    assert Slice(file, base, 0) == [] && |wants| > 0 && Start(0) == 0;
    hide Slice, Allowed, BatchOf, AllAllowed, Start;
    got := [];
    scan := Again;
    for i := 0 to |wants|
      invariant scan.Again? && (i > 0 ==> got != [])
      invariant honest ==> got == Slice(file, base, |got|) && |got| == Min(Start(i), remaining)
    {
      var reply, want := replies[i], wants[i].want;
      WantAt(file, base, remaining, wants, replies, i);
      StartNext(i, remaining);
      if reply.Failure? {
        return got, Failed;
      }
      if honest {
        ReplyExtends(file, base, got, want, reply);
      }
      if reply.Eof? || reply.data == [] {
        return got, Ended;
      }
      got := got + reply.data;
      if |reply.data| < want {
        // Later replies cover a range not reached yet: ask again from here.
        return;
      }
    }
  }

  /** The requests of a session, in the order sent, and some failure among
      their answers. */
  ghost predicate SomeFailed(server: Server, asked: seq<Want>) {
    exists n: nat :: n < |asked| && server(n, asked[n].at, asked[n].want).Failure?
  }

  /** Reads `len` bytes at `offset`. Terminates against every server. If each
      reply is one a working server may give, or a failure, a successful read
      is exactly the file's bytes in the range, however the replies are cut up;
      and it fails only if a request it sent was answered with a failure. */
  method ReadRange(server: Server, ghost file: seq<byte>, offset: nat, len: nat)
    returns (r: Result<seq<byte>, string>, ghost asked: seq<Want>)
    ensures Fair(file, server) && r.Ok? ==> r.value == Slice(file, offset, len)
    ensures r.Err? ==> SomeFailed(server, asked)
    ensures forall n :: 0 <= n < |asked| ==> offset <= asked[n].at && 0 < asked[n].want <= MAX_READ
    ensures Honest(file, server) ==> r == Ok(Slice(file, offset, len))
  {
    assert Slice(file, offset, 0) == [];
    hide Honest, Fair, Slice, SomeFailed;
    HonestIsFair(file, server);
    var out: seq<byte> := [];
    var sent: nat := 0;
    asked := [];
    while |out| < len
      invariant Fair(file, server) ==> out == Slice(file, offset, |out|) && |out| <= len
      invariant |asked| == sent && forall n :: 0 <= n < |asked| ==> offset <= asked[n].at && 0 < asked[n].want <= MAX_READ
      decreases len - |out|
    {
      var got, scan, n, wants := AskBatch(server, file, offset + |out|, len - |out|, sent);
      if scan.Failed? {
        FailedBatch(file, server, asked, wants);
        return Err("sftp read"), asked + wants;
      }
      asked := asked + wants;
      sent := sent + n;
      if Fair(file, server) {
        SlicesJoin(file, offset, |out|, |got|);
      }
      out := out + got;
      if scan.Ended? {
        ShortSlice(file, offset, |out|, len);
        break;
      }
    }
    r := Ok(out);
  }

  /** Sends one batch, as requests `sent` and on, and takes its replies. */
  method AskBatch(server: Server, ghost file: seq<byte>, base: nat, remaining: nat, sent: nat)
    returns (got: seq<byte>, scan: Scan, n: nat, ghost wants: seq<Want>)
    requires remaining > 0
    ensures n == |wants| && forall i :: 0 <= i < |wants| ==> base <= wants[i].at && 0 < wants[i].want <= MAX_READ
    ensures scan.Again? ==> got != []
    ensures scan.Failed? ==> exists i :: 0 <= i < |wants| && server(sent + i, wants[i].at, wants[i].want).Failure?
    ensures Fair(file, server) && !scan.Failed? ==>
      && got == Slice(file, base, |got|) && |got| <= remaining
      && (scan.Ended? ==> base + |got| >= |file|)
  {
    hide Fair, Slice, AllAllowed;
    var plan := PlanBatch(base, remaining);
    var replies: seq<Reply> := seq(|plan|, i requires 0 <= i < |plan| => server(sent + i, plan[i].at, plan[i].want));
    FairBatch(file, server, base, remaining, sent, plan, replies);
    got, scan := TakeReplies(file, base, remaining, plan, replies);
    n, wants := |plan|, plan;
  }

  lemma FailedBatch(file: seq<byte>, server: Server, asked: seq<Want>, wants: seq<Want>)
    requires exists i :: 0 <= i < |wants| && server(|asked| + i, wants[i].at, wants[i].want).Failure?
    requires forall i :: 0 <= i < |wants| ==> wants[i].want > 0
    ensures SomeFailed(server, asked + wants) && !Honest(file, server)
  {
    var i :| 0 <= i < |wants| && server(|asked| + i, wants[i].at, wants[i].want).Failure?;
    var all, n := asked + wants, |asked| + i;
    assert all[n] == wants[i];
    assert server(n, all[n].at, all[n].want).Failure?;
    assert Honest(file, server) ==> Allowed(file, wants[i].at, wants[i].want, server(n, wants[i].at, wants[i].want));
  }

  lemma FairBatch(file: seq<byte>, server: Server, base: nat, remaining: nat, sent: nat, wants: seq<Want>, replies: seq<Reply>)
    requires BatchOf(wants, base, remaining) && |replies| == |wants|
    requires forall i :: 0 <= i < |wants| ==> replies[i] == server(sent + i, wants[i].at, wants[i].want)
    ensures forall i :: 0 <= i < |wants| ==> base <= wants[i].at && 0 < wants[i].want <= MAX_READ
    ensures Fair(file, server) ==> AllAllowed(file, wants, replies)
  {
    hide Allowed;
  }

  lemma ShortSlice(file: seq<byte>, offset: nat, n: nat, len: nat)
    ensures offset + n >= |file| && n <= len ==> Slice(file, offset, n) == Slice(file, offset, len)
  {
  }

  lemma HonestIsFair(file: seq<byte>, server: Server)
    ensures Honest(file, server) ==> Fair(file, server)
  {
  }

  lemma SlicesJoin(file: seq<byte>, offset: nat, m: nat, n: nat)
    requires |Slice(file, offset, m)| == m
    ensures Slice(file, offset, m) + Slice(file, offset + m, n) == Slice(file, offset, m + n)
  {
  }
}

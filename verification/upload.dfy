/** `upload_arbitrary`: the binary protocol that stores a 2048-point waveform in one
    of the instrument's four arbitrary-waveform banks. Three framed handshake steps
    (init, erase, begin), each answered by a fixed reply, are followed by the payload
    in 8-byte chunks, each complete once eight 'X' bytes have come back. */
module Uploader {
  import opened Transport
  import opened Waveform

  /** Why an upload ended. The driver itself returns only `status == Complete`; the
      other values name the branch it printed a diagnostic for. */
  datatype Status =
    | Complete
    | NotConnected
    | InvalidBank
    | HandshakeFailed
    | EraseFailed
    | BeginFailed
    | TransferTimeout

  /** The frames and chunks written, in order, and the `sent` values reported to the
      progress callback, in order. */
  datatype Outcome = Outcome(status: Status, writes: seq<seq<byte>>, progress: seq<int>) {
    /** The boolean `upload_arbitrary` returns. */
    predicate Succeeded() { status == Complete }
  }

  /** "DDS_WAVE", the magic that prefixes every control byte. */
  const Magic: seq<byte> := [0x44, 0x44, 0x53, 0x5F, 0x57, 0x41, 0x56, 0x45]
  const InitControl: byte := 0xA5
  const EraseBase: int := 0xF0
  const InitReply: seq<byte> := [0x58]         // "X"
  const EraseReply: seq<byte> := [0x53, 0x45]  // "SE"
  const BeginReply: seq<byte> := [0x57]        // "W"

  predicate ValidBank(bank: int) { 1 <= bank <= 4 }

  function Frame(control: byte): seq<byte> {
    Magic + [control]
  }

  /** Init, erase-bank and begin-bank frames, in the order they are written. */
  function Handshake(bank: int): seq<seq<byte>>
    requires ValidBank(bank)
  {
    [Frame(InitControl), Frame(EraseBase + bank), Frame(bank)]
  }

  /** Everything a successful upload of `data` to `bank` writes. */
  function Plan(bank: int, data: seq<byte>): seq<seq<byte>>
    requires ValidBank(bank)
  {
    Handshake(bank) + Chunks(data)
  }

  /** The outcome of waiting for one chunk's acknowledgments, with the bytes read. */
  datatype Acked = Acked(ok: bool, consumed: seq<byte>, rest: Script)

  /** The acknowledgment loop for one chunk: `acked` of `want` 'X' bytes have arrived;
      each read asks only for the number still missing, bytes other than 'X' are
      ignored, and a read that returns nothing gives up. */
  function AwaitAcks(s: Script, want: nat, acked: nat): (r: Acked)
    requires acked <= want
    ensures Size(r.rest) <= Size(s)
    decreases Size(s)
  {
    if acked >= want then Acked(true, [], s)
    else
      var got := ReadExact(s, want - acked);
      if got.bytes == [] then Acked(false, [], got.rest)
      else
        var r := AwaitAcks(got.rest, want, acked + CountAcks(got.bytes));
        Acked(r.ok, got.bytes + r.consumed, r.rest)
  }

  /** The chunk is acknowledged exactly when the 'X' bytes read reach `want`, and the
      count never overshoots. */
  lemma {:induction false} AwaitAcksCounts(s: Script, want: nat, acked: nat)
    requires acked <= want
    ensures acked + CountAcks(AwaitAcks(s, want, acked).consumed) <= want
    ensures AwaitAcks(s, want, acked).ok <==> acked + CountAcks(AwaitAcks(s, want, acked).consumed) == want
    decreases Size(s)
  {
    if acked < want {
      var got := ReadExact(s, want - acked);
      if got.bytes != [] {
        var next := acked + CountAcks(got.bytes);
        AwaitStep(s, want, acked, got, next);
        AwaitAcksCounts(got.rest, want, next);
        CountAcksAppend(got.bytes, AwaitAcks(got.rest, want, next).consumed);
      }
    }
  }

  /** The bytes the wait reads are the next bytes of the stream. */
  lemma {:induction false} AwaitAcksConserves(s: Script, want: nat, acked: nat)
    requires acked <= want
    ensures Flatten(s) == AwaitAcks(s, want, acked).consumed + Flatten(AwaitAcks(s, want, acked).rest)
    decreases Size(s)
  {
    if acked < want {
      var got := ReadExact(s, want - acked);
      ReadExactConserves(s, want - acked);
      if got.bytes != [] {
        var next := acked + CountAcks(got.bytes);
        AwaitStep(s, want, acked, got, next);
        AwaitAcksConserves(got.rest, want, next);
        var r := AwaitAcks(got.rest, want, next);
        assert Flatten(s) == got.bytes + (r.consumed + Flatten(r.rest));
      } else {
        assert Flatten(s) == [] + Flatten(got.rest);
      }
    }
  }

  /** One step of the acknowledgment loop that read something, unfolded: the wait
      goes on from the rest of the stream with `next` acknowledgments counted. */
  lemma AwaitStep(s: Script, want: nat, acked: nat, got: Received, next: nat)
    requires acked < want && got == ReadExact(s, want - acked) && got.bytes != []
    requires next == acked + CountAcks(got.bytes)
    ensures next <= want
    ensures AwaitAcks(s, want, acked)
         == Acked(AwaitAcks(got.rest, want, next).ok,
                  got.bytes + AwaitAcks(got.rest, want, next).consumed,
                  AwaitAcks(got.rest, want, next).rest)
  {
  }

  datatype Transferred = Transferred(ok: bool, writes: seq<seq<byte>>, progress: seq<int>)

  /** The length of the chunk cut when `remaining` bytes are left to send. */
  function ChunkLength(remaining: nat): (n: nat)
    ensures remaining > 0 ==> 0 < n <= remaining && n <= ChunkSize
  {
    if remaining < ChunkSize then remaining else ChunkSize
  }

  /** The chunked transfer from byte `sent` on: write a chunk, wait for its
      acknowledgments, report the bytes sent so far, go on with the next chunk. */
  function Transfer(s: Script, data: seq<byte>, sent: nat): (t: Transferred)
    requires sent <= |data|
    ensures t.ok ==> |t.progress| == |t.writes|
    ensures !t.ok ==> |t.writes| == |t.progress| + 1
    decreases |data| - sent
  {
    if sent >= |data| then Transferred(true, [], [])
    else
      var n := ChunkLength(|data| - sent);
      var a := AwaitAcks(s, n, 0);
      if !a.ok then Transferred(false, [data[sent..sent + n]], [])
      else
        var t := Transfer(a.rest, data, sent + n);
        Transferred(t.ok, [data[sent..sent + n]] + t.writes, [sent + n] + t.progress)
  }

  /** The chunks written are the payload's chunks from `sent` on, in order: all of
      them when the transfer succeeds, and a prefix ending at the chunk that went
      unacknowledged when it does not. */
  lemma {:induction false} TransferFollowsChunks(s: Script, data: seq<byte>, sent: nat)
    requires sent <= |data|
    ensures Transfer(s, data, sent).writes <= Chunks(data[sent..])
    ensures Transfer(s, data, sent).ok ==> Transfer(s, data, sent).writes == Chunks(data[sent..])
    decreases |data| - sent
  {
    if sent < |data| {
      var n := ChunkLength(|data| - sent);
      ChunksFrom(data, sent, n);
      var a := AwaitAcks(s, n, 0);
      TransferStep(s, data, sent, n, a.rest, sent + n);
      if a.ok {
        TransferFollowsChunks(a.rest, data, sent + n);
        PrefixCons(data[sent..sent + n], Transfer(a.rest, data, sent + n).writes, Chunks(data[sent + n..]));
      }
    }
  }

  /** The chunks from byte `sent` on are the chunk at `sent` followed by the chunks
      after it. */
  lemma ChunksFrom(data: seq<byte>, sent: nat, n: nat)
    requires sent < |data| && n == ChunkLength(|data| - sent)
    ensures Chunks(data[sent..]) == [data[sent..sent + n]] + Chunks(data[sent + n..])
  {
    assert data[sent..][..n] == data[sent..sent + n];
    assert data[sent..][n..] == data[sent + n..];
  }

  lemma PrefixCons<T>(c: T, a: seq<T>, b: seq<T>)
    requires a <= b
    ensures [c] + a <= [c] + b
  {
    assert ([c] + b)[..1 + |a|] == [c] + a;
  }

  /** One step of the chunk loop, unfolded: the `n`-byte chunk at `sent` is written;
      if its acknowledgments arrive, the transfer goes on from `rest` at `next`. */
  lemma TransferStep(s: Script, data: seq<byte>, sent: nat, n: nat, rest: Script, next: nat)
    requires sent < |data| && n == ChunkLength(|data| - sent) && next == sent + n
    requires rest == AwaitAcks(s, n, 0).rest
    ensures next <= |data|
    ensures !AwaitAcks(s, n, 0).ok ==>
      Transfer(s, data, sent) == Transferred(false, [data[sent..sent + n]], [])
    ensures AwaitAcks(s, n, 0).ok ==>
      Transfer(s, data, sent) == Transferred(Transfer(rest, data, next).ok,
                                             [data[sent..sent + n]] + Transfer(rest, data, next).writes,
                                             [next] + Transfer(rest, data, next).progress)
  {
  }

  /** The replies the handshake expects, one per frame: "X", "SE", "W". */
  const Replies: seq<seq<byte>> := [InitReply, EraseReply, BeginReply]

  /** How many handshake steps were answered as expected, and the stream after them. */
  datatype Greeting = Greeting(answered: nat, rest: Script)

  /** The handshake from step `step` on: each step reads exactly as many bytes as its
      expected reply has and stops at the first reply that differs, a short or empty
      read included. */
  function Greet(s: Script, step: nat): (g: Greeting)
    requires step <= |Replies|
    ensures step <= g.answered <= |Replies|
    decreases |Replies| - step
  {
    if step == |Replies| then Greeting(step, s)
    else
      var r := ReadExact(s, |Replies[step]|);
      if r.bytes != Replies[step] then Greeting(step, r.rest) else Greet(r.rest, step + 1)
  }

  /** One handshake step unfolded, for the read `r` that step makes. */
  lemma GreetStep(s: Script, step: nat, r: Received)
    requires step < |Replies| && r == ReadExact(s, |Replies[step]|)
    ensures Greet(s, step) == if r.bytes != Replies[step] then Greeting(step, r.rest) else Greet(r.rest, step + 1)
  {
  }

  /** The status reported when handshake step `k` goes unanswered. */
  function Unanswered(k: nat): Status {
    if k == 0 then HandshakeFailed else if k == 1 then EraseFailed else BeginFailed
  }

  /** `upload_arbitrary` for a payload already packed into bytes, as a function of
      whether the port is open and of the instrument's scripted replies: each handshake
      frame is written before its reply is awaited, and the payload follows only when
      all three replies matched. */
  function Upload(open: bool, bank: int, data: seq<byte>, script: Script): Outcome {
    if !open then Outcome(NotConnected, [], [])
    else if !ValidBank(bank) then Outcome(InvalidBank, [], [])
    else
      var g := Greet(script, 0);
      if g.answered < |Replies| then
        Outcome(Unanswered(g.answered), Handshake(bank)[..g.answered + 1], [])
      else
        var t := Transfer(g.rest, data, 0);
        Outcome(if t.ok then Complete else TransferTimeout, Handshake(bank) + t.writes, t.progress)
  }

  /** A transfer that continues after `writes` and `progress` have been recorded. */
  function Resume(writes: seq<seq<byte>>, progress: seq<int>, t: Transferred): Transferred {
    Transferred(t.ok, writes + t.writes, progress + t.progress)
  }

  lemma ResumeStep(writes: seq<seq<byte>>, progress: seq<int>, chunk: seq<byte>, sent: int,
                   t: Transferred)
    ensures Resume(writes, progress, Transferred(t.ok, [chunk] + t.writes, [sent] + t.progress))
         == Resume(writes + [chunk], progress + [sent], t)
  {
    assert writes + ([chunk] + t.writes) == (writes + [chunk]) + t.writes;
    assert progress + ([sent] + t.progress) == (progress + [sent]) + t.progress;
  }

  lemma ResumeNothing(t: Transferred)
    ensures Resume([], [], t) == t
  {
    assert [] + t.writes == t.writes;
    assert [] + t.progress == t.progress;
  }

  lemma ResumeLast(writes: seq<seq<byte>>, progress: seq<int>, chunk: seq<byte>)
    ensures chunk != [] ==>
      Resume(writes, progress, Transferred(false, [chunk], [])) == Transferred(false, writes + [chunk], progress)
    ensures chunk == [] ==>
      Resume(writes, progress, Transferred(true, [], [])) == Transferred(true, writes, progress)
  {
    assert progress + [] == progress;
    assert writes + [] == writes;
  }

  /** The engine as the driver runs it: the samples are packed, the handshake is
      performed, and the payload follows only when every reply matched. */
  method UploadArbitrary(open: bool, bank: int, samples: seq<int>, script: Script)
    returns (ok: bool, writes: seq<seq<byte>>, progress: seq<int>)
    ensures var r := Upload(open, bank, Payload(samples), script);
      ok == r.Succeeded() && writes == r.writes && progress == r.progress
  {
    ok, writes, progress := false, [], [];
    if !open || !ValidBank(bank) {
      return;
    }
    var data := Payload(samples);
    var answered, rest;
    answered, writes, rest := PerformHandshake(bank, script);
    if answered == |Replies| {
      var chunks;
      ok, chunks, progress := SendPayload(rest, data);
      writes := writes + chunks;
    }
  }

  /** The three handshake steps, each frame written before its reply is awaited; the
      frames written are those up to and including the first unanswered one. */
  method PerformHandshake(bank: int, script: Script)
    returns (answered: nat, writes: seq<seq<byte>>, rest: Script)
    requires ValidBank(bank)
    ensures answered == Greet(script, 0).answered && rest == Greet(script, 0).rest
    ensures writes == if answered < |Replies| then Handshake(bank)[..answered + 1] else Handshake(bank)
  {
    var frames := Handshake(bank);
    writes, rest := [], script;
    var step := 0;
    while step < |Replies|
      invariant step <= |Replies|
      invariant Greet(script, 0) == Greet(rest, step)
      invariant writes == frames[..step]
    {
      writes := frames[..step + 1];
      var matched, next := AwaitReply(rest, step);
      if !matched {
        return step, writes, next;
      }
      rest, step := next, step + 1;
    }
    assert frames[..|Replies|] == frames;
    return step, writes, rest;
  }

  /** Reads the reply to handshake step `step` and compares it with the expected one:
      a mismatch ends the handshake at that step, a match moves on to the next. */
  method AwaitReply(s: Script, step: nat) returns (matched: bool, rest: Script)
    requires step < |Replies|
    ensures !matched ==> Greet(s, step) == Greeting(step, rest)
    ensures matched ==> Greet(s, step) == Greet(rest, step + 1)
  {
    var r := ReadExact(s, |Replies[step]|);
    GreetStep(s, step, r);
    return r.bytes == Replies[step], r.rest;
  }

  /** The chunk loop: each chunk is written, then acknowledged, then reported. */
  method SendPayload(script: Script, data: seq<byte>)
    returns (ok: bool, writes: seq<seq<byte>>, progress: seq<int>)
    ensures Transferred(ok, writes, progress) == Transfer(script, data, 0)
  {
    ghost var goal := Transfer(script, data, 0);
    writes, progress := [], [];
    var s := script;
    var sent := 0;
    ResumeNothing(goal);
    while sent < |data|
      invariant sent <= |data|
      invariant goal == Resume(writes, progress, Transfer(s, data, sent))
      decreases |data| - sent
    {
      var acked;
      acked, s, sent, writes, progress := SendChunk(goal, s, data, sent, writes, progress);
      if !acked {
        return false, writes, progress;
      }
    }
    ResumeLast(writes, progress, []);
    return true, writes, progress;
  }

  /** One pass of the chunk loop: the chunk at `sent` is written, its acknowledgments
      are awaited and, when they arrive, the bytes sent so far are reported. The
      transfer still owed, `goal`, is then either over or goes on from `rest`. */
  method SendChunk(ghost goal: Transferred, s: Script, data: seq<byte>, sent: nat,
                   writes: seq<seq<byte>>, progress: seq<int>)
    returns (acked: bool, rest: Script, sent': nat, writes': seq<seq<byte>>, progress': seq<int>)
    requires sent < |data| && goal == Resume(writes, progress, Transfer(s, data, sent))
    ensures sent < sent' <= |data|
    ensures writes' == writes + [data[sent..sent']]
    ensures !acked ==> goal == Transferred(false, writes', progress')
    ensures acked ==> goal == Resume(writes', progress', Transfer(rest, data, sent'))
  {
    var n := ChunkLength(|data| - sent);
    acked, rest := AwaitChunk(s, n);
    SendStep(goal, writes, progress, s, data, sent, n, rest);
    sent' := sent + n;
    writes' := writes + [data[sent..sent']];
    progress' := if acked then progress + [sent'] else progress;
  }

  /** One pass of the chunk loop: once the chunk at `sent` has been written and its
      acknowledgments awaited, the transfer still owed is either over, after that
      chunk, or goes on from `rest` with one more progress report. */
  lemma SendStep(goal: Transferred, writes: seq<seq<byte>>, progress: seq<int>, s: Script,
                 data: seq<byte>, sent: nat, n: nat, rest: Script)
    requires sent < |data| && n == ChunkLength(|data| - sent)
    requires rest == AwaitAcks(s, n, 0).rest
    requires goal == Resume(writes, progress, Transfer(s, data, sent))
    ensures sent + n <= |data|
    ensures !AwaitAcks(s, n, 0).ok ==>
      goal == Transferred(false, writes + [data[sent..sent + n]], progress)
    ensures AwaitAcks(s, n, 0).ok ==>
      goal == Resume(writes + [data[sent..sent + n]], progress + [sent + n], Transfer(rest, data, sent + n))
  {
    var chunk := data[sent..sent + n];
    TransferStep(s, data, sent, n, rest, sent + n);
    if AwaitAcks(s, n, 0).ok {
      ResumeStep(writes, progress, chunk, sent + n, Transfer(rest, data, sent + n));
    } else {
      ResumeLast(writes, progress, chunk);
    }
  }

  /** The acknowledgment loop for one chunk of `want` bytes. */
  method AwaitChunk(script: Script, want: nat) returns (ok: bool, rest: Script)
    ensures ok == AwaitAcks(script, want, 0).ok && rest == AwaitAcks(script, want, 0).rest
  {
    ghost var goal := AwaitAcks(script, want, 0);
    var s := script;
    var acked: nat := 0;
    while acked < want
      invariant acked <= want
      invariant AwaitAcks(s, want, acked).ok == goal.ok
      invariant AwaitAcks(s, want, acked).rest == goal.rest
      decreases Size(s)
    {
      var got := ReadExact(s, want - acked);
      if got.bytes == [] {
        return false, got.rest;
      }
      ghost var (s0, acked0) := (s, acked);
      acked, s := acked + CountAcks(got.bytes), got.rest;
      AwaitStep(s0, want, acked0, got, acked);
    }
    return true, s;
  }
}

/** What the upload engine guarantees: it writes nothing to a closed port or a bad
    bank, it writes its frames and chunks in the order of the plan and stops at the
    first unanswered step, it reaches the payload only after the exact handshake
    replies, and it reports progress in 8-byte steps up to 4096. */
module UploadProperties {
  import opened Transport
  import opened Waveform
  import opened Uploader

  /** The handshake replies in the order they are expected: "X", "SE", "W". */
  const HandshakeReplies: seq<byte> := [0x58, 0x53, 0x45, 0x57]

  /** Eight acknowledgment bytes, as one read returns them. */
  const AckRun: seq<byte> := seq(ChunkSize, _ => Ack)

  // ---------------------------------------------------------------------------
  // The transfer loop

  /** Progress is reported once per acknowledged chunk: on a payload of `count`
      whole chunks, at most `count` times, and exactly `count` times when the transfer
      succeeds. */
  lemma {:induction false} TransferProgressCount(s: Script, data: seq<byte>, sent: nat, count: nat)
    requires sent + ChunkSize * count == |data|
    ensures |Transfer(s, data, sent).progress| <= count
    ensures Transfer(s, data, sent).ok ==> |Transfer(s, data, sent).progress| == count
    decreases count
  {
    if count > 0 {
      var n := ChunkLength(|data| - sent);
      var a := AwaitAcks(s, n, 0);
      TransferStep(s, data, sent, n, a.rest, sent + n);
      if a.ok {
        TransferProgressCount(a.rest, data, sent + n, count - 1);
      }
    }
  }

  /** The first `k` progress marks after `start`: `start + 8`, `start + 16`, ... */
  function Marks(start: nat, k: nat): seq<nat> {
    seq(k, i => start + ChunkSize * (i + 1))
  }

  lemma MarksCons(start: nat, k: nat)
    ensures [start + ChunkSize] + Marks(start + ChunkSize, k) == Marks(start, k + 1)
  {
    var m := Marks(start, k + 1);
    assert forall i :: 1 <= i < k + 1 ==> m[i] == Marks(start + ChunkSize, k)[i - 1];
  }

  /** Progress is reported as the number of bytes sent so far: on a payload cut into
      whole chunks the values are `sent + 8`, `sent + 16`, and so on. */
  lemma {:induction false} TransferProgressValues(s: Script, data: seq<byte>, sent: nat, count: nat)
    requires sent + ChunkSize * count == |data|
    ensures Transfer(s, data, sent).progress == Marks(sent, |Transfer(s, data, sent).progress|)
    decreases count
  {
    if count > 0 {
      var n := ChunkLength(|data| - sent);
      var a := AwaitAcks(s, n, 0);
      TransferStep(s, data, sent, n, a.rest, sent + n);
      if a.ok {
        assert n == ChunkSize;
        TransferProgressValues(a.rest, data, sent + n, count - 1);
        MarksCons(sent, |Transfer(a.rest, data, sent + n).progress|);
      }
    }
  }

  /** A transfer that succeeds has read at least one acknowledgment byte for every
      payload byte it sent. */
  lemma {:induction false} TransferAcks(s: Script, data: seq<byte>, sent: nat)
    requires sent <= |data|
    ensures Transfer(s, data, sent).ok ==> CountAcks(Flatten(s)) >= |data| - sent
    decreases |data| - sent
  {
    if sent < |data| {
      var n := ChunkLength(|data| - sent);
      var a := AwaitAcks(s, n, 0);
      TransferStep(s, data, sent, n, a.rest, sent + n);
      if a.ok {
        AwaitAcksCounts(s, n, 0);
        AwaitAcksConserves(s, n, 0);
        TransferAcks(a.rest, data, sent + n);
        CountAcksAppend(a.consumed, Flatten(a.rest));
      }
    }
  }

  /** Noise tolerance: the acknowledgment wait succeeds whenever the next entry holds
      enough 'X' bytes, whatever other bytes surround them, and even when they arrive
      spread over several reads. */
  lemma {:induction false} AcksAmidNoise(e: seq<byte>, rest: Script, want: nat, acked: nat)
    requires acked <= want && CountAcks(e) >= want - acked
    ensures AwaitAcks([e] + rest, want, acked).ok
    decreases |e|
  {
    if acked < want {
      if |e| <= want - acked {
        AcksInShortEntry(e, rest, want, acked);
      } else {
        var next := AcksInLongEntry(e, rest, want, acked);
        AcksAmidNoise(e[want - acked..], rest, want, next);
      }
    }
  }

  /** An entry no longer than the acknowledgments still missing is read whole, and
      completes the chunk when it holds enough of them. */
  lemma AcksInShortEntry(e: seq<byte>, rest: Script, want: nat, acked: nat)
    requires acked < want && |e| <= want - acked && CountAcks(e) >= want - acked
    ensures AwaitAcks([e] + rest, want, acked).ok
  {
    var s := [e] + rest;
    var k := want - acked;
    var got := ReadExact(s, k);
    assert s[0] == e;
    ReadExactShortEntry(s, k);
    assert got.bytes == e + got.bytes[|e|..];
    CountAcksAppend(e, got.bytes[|e|..]);
    var next := acked + CountAcks(got.bytes);
    AwaitStep(s, want, acked, got, next);
    assert next == want;
  }

  /** A longer entry gives the wait its first `want - acked` bytes and keeps the rest
      buffered; the wait goes on from there with `next` acknowledgments counted. */
  lemma AcksInLongEntry(e: seq<byte>, rest: Script, want: nat, acked: nat) returns (next: nat)
    requires acked < want && |e| > want - acked && CountAcks(e) >= want - acked
    ensures next <= want && CountAcks(e[want - acked..]) >= want - next
    ensures AwaitAcks([e] + rest, want, acked).ok == AwaitAcks([e[want - acked..]] + rest, want, next).ok
  {
    var s := [e] + rest;
    var k := want - acked;
    ReadExactFromEntry(s, k);
    var got := ReadExact(s, k);
    assert got.bytes == e[..k];
    assert e == e[..k] + e[k..];
    CountAcksAppend(e[..k], e[k..]);
    next := acked + CountAcks(got.bytes);
    AwaitStep(s, want, acked, got, next);
  }

  /** A chunk whose acknowledgment read times out is not acknowledged. */
  lemma SilenceTimesOut(rest: Script, want: nat)
    requires want > 0
    ensures !AwaitAcks([[]] + rest, want, 0).ok
  {
    ReadExactTimeout([[]] + rest, want);
  }

  /** Conversely, a stream holding fewer 'X' bytes than the chunk needs never
      acknowledges it, however its bytes are split into reads. */
  lemma AckShortfallFails(s: Script, want: nat)
    requires CountAcks(Flatten(s)) < want
    ensures !AwaitAcks(s, want, 0).ok
  {
    AwaitAcksCounts(s, want, 0);
    AwaitAcksConserves(s, want, 0);
    var a := AwaitAcks(s, want, 0);
    CountAcksAppend(a.consumed, Flatten(a.rest));
  }

  /** The wait completes whenever the stream still holds the 'X' bytes it lacks and
      no read times out, however those bytes are split into reads and whatever other
      bytes lie between them. */
  lemma {:induction false} AcksArrive(s: Script, want: nat, acked: nat)
    requires acked <= want && NoTimeout(s) && CountAcks(Flatten(s)) >= want - acked
    ensures AwaitAcks(s, want, acked).ok
    decreases Size(s)
  {
    if acked < want {
      var got := ReadExact(s, want - acked);
      assert s != [];
      ReadExactKeepsNoTimeout(s, want - acked);
      ReadExactConserves(s, want - acked);
      var next := acked + CountAcks(got.bytes);
      AwaitStep(s, want, acked, got, next);
      CountAcksAppend(got.bytes, Flatten(got.rest));
      AcksArrive(got.rest, want, next);
    }
  }

  /** Without timeouts a chunk of `want` bytes is acknowledged exactly when the stream
      holds at least `want` 'X' bytes. */
  lemma AcksExactly(s: Script, want: nat)
    requires NoTimeout(s)
    ensures AwaitAcks(s, want, 0).ok <==> CountAcks(Flatten(s)) >= want
  {
    if CountAcks(Flatten(s)) >= want {
      AcksArrive(s, want, 0);
    } else {
      AckShortfallFails(s, want);
    }
  }

  /** The wait leaves a stream without timeouts when it started from one. */
  lemma {:induction false} AwaitAcksKeepsNoTimeout(s: Script, want: nat, acked: nat)
    requires acked <= want && NoTimeout(s)
    ensures NoTimeout(AwaitAcks(s, want, acked).rest)
    decreases Size(s)
  {
    if acked < want {
      var got := ReadExact(s, want - acked);
      ReadExactKeepsNoTimeout(s, want - acked);
      if got.bytes != [] {
        var next := acked + CountAcks(got.bytes);
        AwaitStep(s, want, acked, got, next);
        AwaitAcksKeepsNoTimeout(got.rest, want, next);
      }
    }
  }

  /** A chunk's wait reads no 'X' beyond the ones it needs: each read asks only for
      the acknowledgments still missing. What it leaves holds all the others. */
  lemma AcksLeft(s: Script, want: nat)
    requires AwaitAcks(s, want, 0).ok
    ensures CountAcks(Flatten(AwaitAcks(s, want, 0).rest)) == CountAcks(Flatten(s)) - want
  {
    var a := AwaitAcks(s, want, 0);
    AwaitAcksCounts(s, want, 0);
    AwaitAcksConserves(s, want, 0);
    CountAcksAppend(a.consumed, Flatten(a.rest));
  }

  /** Without timeouts the whole transfer succeeds whenever the stream holds one 'X'
      for every payload byte still to send, wherever the noise and the read
      boundaries fall. */
  lemma {:induction false} TransferArrives(s: Script, data: seq<byte>, sent: nat)
    requires sent <= |data| && NoTimeout(s) && CountAcks(Flatten(s)) >= |data| - sent
    ensures Transfer(s, data, sent).ok
    decreases |data| - sent
  {
    if sent < |data| {
      var n := ChunkLength(|data| - sent);
      AcksArrive(s, n, 0);
      var a := AwaitAcks(s, n, 0);
      AcksLeft(s, n);
      AwaitAcksKeepsNoTimeout(s, n, 0);
      TransferStep(s, data, sent, n, a.rest, sent + n);
      TransferArrives(a.rest, data, sent + n);
    }
  }

  /** Without timeouts the transfer succeeds exactly when the stream holds at least
      one 'X' per payload byte. */
  lemma TransferExactly(s: Script, data: seq<byte>)
    requires NoTimeout(s)
    ensures Transfer(s, data, 0).ok <==> CountAcks(Flatten(s)) >= |data|
  {
    TransferAcks(s, data, 0);
    if CountAcks(Flatten(s)) >= |data| {
      TransferArrives(s, data, 0);
    }
  }

  /** The noisy reply "A" followed by eight 'X' and another "A" acknowledges an 8-byte
      chunk, whatever comes after it. */
  lemma NoisyAckRun(rest: Script)
    ensures AwaitAcks([[0x41] + AckRun + [0x41]] + rest, ChunkSize, 0).ok
  {
    var e: seq<byte> := [0x41] + AckRun + [0x41];
    CountAcksAllAcks(AckRun);
    CountAcksAppend([0x41], AckRun);
    CountAcksAppend([0x41] + AckRun, [0x41]);
    AcksAmidNoise(e, rest, ChunkSize, 0);
  }

  /** With only seven 'X' between the two noise bytes and silence after them, the
      8-byte chunk is not acknowledged. */
  lemma NoisyAckShortRun()
    ensures !AwaitAcks([[0x41] + seq(7, _ => Ack) + [0x41]], ChunkSize, 0).ok
  {
    var seven: seq<byte> := seq(7, _ => Ack);
    var e: seq<byte> := [0x41] + seven + [0x41];
    CountAcksAllAcks(seven);
    CountAcksAppend([0x41], seven);
    CountAcksAppend([0x41] + seven, [0x41]);
    assert Flatten([e]) == e + Flatten([]) by {
      assert [e][1..] == [];
    }
    assert e + [] == e;
    AckShortfallFails([e], ChunkSize);
  }

  /** One read of eight 'X' bytes per chunk completes a whole-chunk transfer. */
  lemma {:induction false} AckRunsComplete(s: Script, data: seq<byte>, sent: nat)
    requires sent <= |data| && (|data| - sent) % ChunkSize == 0
    requires |s| == (|data| - sent) / ChunkSize
    requires forall i :: 0 <= i < |s| ==> s[i] == AckRun
    ensures Transfer(s, data, sent).ok
    decreases |data| - sent
  {
    if sent < |data| {
      var n := ChunkLength(|data| - sent);
      assert n == ChunkSize;
      ReadExactFromEntry(s, n);
      var got := ReadExact(s, n);
      assert got.bytes == AckRun;
      CountAcksAllAcks(AckRun);
      AwaitStep(s, n, 0, got, CountAcks(got.bytes));
      var a := AwaitAcks(s, n, 0);
      TransferStep(s, data, sent, n, a.rest, sent + n);
      AckRunsComplete(s[1..], data, sent + n);
    }
  }

  // ---------------------------------------------------------------------------
  // The handshake

  /** The handshake replies still expected from step `step` on, run together. */
  function RepliesFrom(step: nat): seq<byte>
    requires step <= |Replies|
    decreases |Replies| - step
  {
    if step == |Replies| then [] else Replies[step] + RepliesFrom(step + 1)
  }

  /** A completed handshake has read exactly the expected replies, in order, and
      nothing else. */
  lemma {:induction false} GreetConsumes(s: Script, step: nat)
    requires step <= |Replies|
    ensures Greet(s, step).answered == |Replies| ==>
      Flatten(s) == RepliesFrom(step) + Flatten(Greet(s, step).rest)
    decreases |Replies| - step
  {
    if step < |Replies| {
      var r := ReadExact(s, |Replies[step]|);
      ReadExactConserves(s, |Replies[step]|);
      GreetStep(s, step, r);
      if r.bytes == Replies[step] {
        GreetConsumes(r.rest, step + 1);
        var g := Greet(r.rest, step + 1);
        if g.answered == |Replies| {
          ConservesChain(Flatten(s), r.bytes, RepliesFrom(step + 1), Flatten(r.rest), Flatten(g.rest));
        }
      }
    }
  }

  /** A first read that carries the expected replies from `step` on, in one burst,
      completes the handshake, leaving whatever followed them for the payload. */
  lemma {:induction false} GreetFromBurst(entry: seq<byte>, rest: Script, step: nat)
    requires step <= |Replies|
    requires |entry| > |RepliesFrom(step)| && entry[..|RepliesFrom(step)|] == RepliesFrom(step)
    ensures Greet([entry] + rest, step).answered == |Replies|
    ensures Greet([entry] + rest, step).rest == [entry[|RepliesFrom(step)|..]] + rest
    decreases |Replies| - step
  {
    if step < |Replies| {
      var s := [entry] + rest;
      assert s[1..] == rest;
      var n := |Replies[step]|;
      var tail := RepliesFrom(step + 1);
      assert RepliesFrom(step) == Replies[step] + tail;
      assert entry[..n] == RepliesFrom(step)[..n];
      ReadExactFromEntry(s, n);
      var r := ReadExact(s, n);
      assert r.bytes == Replies[step];
      assert r.rest == [entry[n..]] + rest;
      assert entry[n..][..|tail|] == tail;
      GreetFromBurst(entry[n..], rest, step + 1);
      assert entry[n..][|tail|..] == entry[|RepliesFrom(step)|..];
    }
  }

  /** The handshake leaves a stream without timeouts when it started from one. */
  lemma {:induction false} GreetKeepsNoTimeout(s: Script, step: nat)
    requires step <= |Replies| && NoTimeout(s)
    ensures NoTimeout(Greet(s, step).rest)
    decreases |Replies| - step
  {
    if step < |Replies| {
      var r := ReadExact(s, |Replies[step]|);
      ReadExactKeepsNoTimeout(s, |Replies[step]|);
      GreetStep(s, step, r);
      if r.bytes == Replies[step] {
        GreetKeepsNoTimeout(r.rest, step + 1);
      }
    }
  }

  /** Conversely, without timeouts a stream that begins with the replies expected from
      `step` on completes the handshake, however those replies are split into reads. */
  lemma {:induction false} GreetArrives(s: Script, step: nat)
    requires step <= |Replies| && NoTimeout(s)
    requires |Flatten(s)| >= |RepliesFrom(step)|
    requires Flatten(s)[..|RepliesFrom(step)|] == RepliesFrom(step)
    ensures Greet(s, step).answered == |Replies|
    decreases |Replies| - step
  {
    if step < |Replies| {
      var n := |Replies[step]|;
      var tail := RepliesFrom(step + 1);
      var r := ReadExact(s, n);
      assert RepliesFrom(step) == Replies[step] + tail;
      SizeFlatten(s);
      ReadExactFull(s, n);
      ReadExactConserves(s, n);
      ReadExactKeepsNoTimeout(s, n);
      GreetStep(s, step, r);
      ReplyAhead(Flatten(s), r.bytes, Flatten(r.rest), Replies[step], tail);
      GreetArrives(r.rest, step + 1);
    }
  }

  /** Splitting a stream that begins with `reply + tail` after its first `|reply|`
      bytes gives `reply`, then a stream that begins with `tail`. */
  lemma ReplyAhead(all: seq<byte>, head: seq<byte>, after: seq<byte>, reply: seq<byte>,
                   tail: seq<byte>)
    requires all == head + after && |head| == |reply|
    requires |all| >= |reply + tail| && all[..|reply + tail|] == reply + tail
    ensures head == reply
    ensures |after| >= |tail| && after[..|tail|] == tail
  {
    assert head == all[..|reply|] == (reply + tail)[..|reply|];
    assert after == all[|reply|..];
    forall i | 0 <= i < |tail|
      ensures after[i] == tail[i]
    {
      assert after[i] == all[|reply| + i] == (reply + tail)[|reply| + i];
    }
  }

  /** Without timeouts the handshake completes exactly when the stream begins with
      "XSEW". */
  lemma GreetExactly(s: Script)
    requires NoTimeout(s)
    ensures Greet(s, 0).answered == |Replies| <==>
      |Flatten(s)| >= 4 && Flatten(s)[..4] == HandshakeReplies
  {
    assert RepliesFrom(0) == HandshakeReplies;
    GreetGate(s);
    if |Flatten(s)| >= 4 && Flatten(s)[..4] == HandshakeReplies {
      GreetArrives(s, 0);
    }
  }

  // ---------------------------------------------------------------------------
  // The whole upload

  /** Nothing is written, and no progress reported, to a closed port or for a bank
      outside 1..4; the closed port is reported first. */
  lemma UploadRejects(open: bool, bank: int, data: seq<byte>, script: Script)
    ensures var r := Upload(open, bank, data, script);
      && (!open ==> r.status == NotConnected)
      && (open && !ValidBank(bank) ==> r.status == InvalidBank)
      && (!open || !ValidBank(bank) <==> r.status in {NotConnected, InvalidBank})
      && (!open || !ValidBank(bank) ==> r.writes == [] && r.progress == [])
  {
  }

  /** Every upload writes a prefix of the plan, the whole plan exactly when it
      succeeds, and stops right after the step that went unanswered: one frame after a
      failed init, two after a failed erase, three after a failed begin, and the
      unacknowledged chunk last after a transfer timeout. */
  lemma UploadFollowsPlan(open: bool, bank: int, data: seq<byte>, script: Script)
    requires ValidBank(bank)
    ensures var r := Upload(open, bank, data, script);
      && r.writes <= Plan(bank, data)
      && (r.Succeeded() ==> r.writes == Plan(bank, data))
      && (r.status == HandshakeFailed ==> |r.writes| == 1)
      && (r.status == EraseFailed ==> |r.writes| == 2)
      && (r.status == BeginFailed ==> |r.writes| == 3)
      && (r.status == TransferTimeout ==> |r.writes| == |r.progress| + 4)
  {
    if open {
      var g := Greet(script, 0);
      assert data[0..] == data;
      TransferFollowsChunks(g.rest, data, 0);
    }
  }

  /** The plan: the init frame "DDS_WAVE" 0xA5, the erase frame with control byte
      0xF0 + bank, the begin frame with the bank itself, then 512 chunks, chunk `k` being
      payload bytes `8k .. 8k+8`. */
  lemma PlanLayout(bank: int, data: seq<byte>)
    requires ValidBank(bank) && |data| == PayloadSize
    ensures var plan := Plan(bank, data);
      && |plan| == 3 + PayloadSize / ChunkSize
      && plan[0] == Magic + [0xA5]
      && plan[1] == Magic + [0xF0 + bank]
      && plan[2] == Magic + [bank]
      && forall k :: 0 <= k < PayloadSize / ChunkSize ==>
           plan[3 + k] == data[ChunkSize * k..ChunkSize * k + ChunkSize]
  {
    ChunksAligned(data);
  }

  /** Progress values are 8, 16, 24, ... in order; a completed upload of a full
      payload reports all 512 of them, ending at 4096. */
  lemma UploadProgress(open: bool, bank: int, data: seq<byte>, script: Script)
    requires |data| == PayloadSize
    ensures var r := Upload(open, bank, data, script);
      && |r.progress| <= PayloadSize / ChunkSize
      && (forall i :: 0 <= i < |r.progress| ==> r.progress[i] == ChunkSize * (i + 1))
      && (r.Succeeded() ==> |r.progress| == PayloadSize / ChunkSize
                            && r.progress[|r.progress| - 1] == PayloadSize)
  {
    if open && ValidBank(bank) {
      TransferProgressCount(Greet(script, 0).rest, data, 0, PayloadSize / ChunkSize);
      TransferProgressValues(Greet(script, 0).rest, data, 0, PayloadSize / ChunkSize);
    }
  }

  /** The payload is reached only after the exact handshake replies: an upload that
      got past the handshake has read "X", "SE" and "W" as the first four bytes of the
      stream, and one that completed has read at least one 'X' per payload byte after
      them. */
  lemma HandshakeGate(open: bool, bank: int, data: seq<byte>, script: Script)
    ensures var r := Upload(open, bank, data, script);
      r.status in {Complete, TransferTimeout} ==>
        && |Flatten(script)| >= 4 && Flatten(script)[..4] == HandshakeReplies
        && (r.Succeeded() ==> CountAcks(Flatten(script)[4..]) >= |data|)
  {
    if open && ValidBank(bank) {
      var g := Greet(script, 0);
      GreetGate(script);
      if g.answered == |Replies| {
        TransferAcks(g.rest, data, 0);
      }
    }
  }

  /** A completed handshake has consumed exactly "XSEW" from the stream. */
  lemma GreetGate(script: Script)
    ensures Greet(script, 0).answered == |Replies| ==>
      && |Flatten(script)| >= 4 && Flatten(script)[..4] == HandshakeReplies
      && Flatten(script)[4..] == Flatten(Greet(script, 0).rest)
  {
    GreetConsumes(script, 0);
    assert RepliesFrom(0) == HandshakeReplies;
  }

  /** Conversely, a first read carrying "XSEW" and more gets the upload past the
      handshake, whatever follows, and then the first chunk is written. */
  lemma HandshakeEntered(bank: int, data: seq<byte>, entry: seq<byte>, rest: Script)
    requires ValidBank(bank)
    requires |entry| > 4 && entry[..4] == HandshakeReplies
    ensures var r := Upload(true, bank, data, [entry] + rest);
      && r.status in {Complete, TransferTimeout}
      && (data != [] ==> |r.writes| > 3)
  {
    assert RepliesFrom(0) == HandshakeReplies;
    GreetFromBurst(entry, rest, 0);
    if data != [] {
      var g := Greet([entry] + rest, 0);
      var n := ChunkLength(|data|);
      TransferStep(g.rest, data, 0, n, AwaitAcks(g.rest, n, 0).rest, n);
    }
  }

  /** An instrument that answers the handshake and then falls silent gets one chunk
      written, and the upload ends in a transfer timeout with no progress reported. */
  lemma SilenceAfterBegin(bank: int, data: seq<byte>)
    requires ValidBank(bank) && data != []
    ensures var r := Upload(true, bank, data, Replies);
      && r.status == TransferTimeout
      && r.writes == Plan(bank, data)[..4]
      && r.progress == []
  {
    var g := ExactGreeting(bank, Replies);
    var n := ChunkLength(|data|);
    ReadExactTimeout([], n);
    TransferStep([], data, 0, n, AwaitAcks([], n, 0).rest, n);
    UploadFollowsPlan(true, bank, data, Replies);
  }

  /** Replies delivered one read per step complete the handshake, leaving the rest of
      the script for the payload. */
  lemma ExactGreeting(bank: int, script: Script) returns (g: Greeting)
    requires |script| >= 3 && script[..3] == Replies
    ensures g == Greet(script, 0) && g.answered == |Replies| && g.rest == script[3..]
  {
    ReadExactFromEntry(script, 1);
    var r1 := ReadExact(script, 1);
    assert r1.rest == script[1..];
    ReadExactFromEntry(r1.rest, 2);
    var r2 := ReadExact(r1.rest, 2);
    assert r2.rest == script[2..];
    ReadExactFromEntry(r2.rest, 1);
    var r3 := ReadExact(r2.rest, 1);
    assert r3.rest == script[3..];
    g := Greet(script, 0);
  }

  /** An instrument that answers every step exactly, one read each, gets the whole
      waveform and the upload succeeds. */
  lemma ExactRepliesComplete(bank: int, data: seq<byte>, script: Script)
    requires ValidBank(bank) && |data| == PayloadSize
    requires |script| == 3 + PayloadSize / ChunkSize && script[..3] == Replies
    requires forall i :: 3 <= i < |script| ==> script[i] == AckRun
    ensures Upload(true, bank, data, script).Succeeded()
  {
    var g := ExactGreeting(bank, script);
    AckRunsComplete(script[3..], data, 0);
  }

  /** An instrument that never lets a read time out gets a complete upload exactly when
      its first four bytes are "XSEW" and at least one 'X' per payload byte follows
      them, whatever noise and read boundaries lie between. */
  lemma UploadExactly(bank: int, data: seq<byte>, script: Script)
    requires ValidBank(bank) && NoTimeout(script)
    ensures Upload(true, bank, data, script).Succeeded() <==>
      && |Flatten(script)| >= 4 && Flatten(script)[..4] == HandshakeReplies
      && CountAcks(Flatten(script)[4..]) >= |data|
  {
    HandshakeGate(true, bank, data, script);
    GreetExactly(script);
    var g := Greet(script, 0);
    if g.answered == |Replies| {
      GreetGate(script);
      GreetKeepsNoTimeout(script, 0);
      TransferExactly(g.rest, data);
    }
  }
}

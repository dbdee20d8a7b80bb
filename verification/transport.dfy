/** The serial link as the upload engine sees it. The instrument's replies are a
    script: a sequence of read results fixed in advance. A read asking for `k` bytes
    takes at most `k` bytes of the script's first entry and leaves the rest of that
    entry buffered for the next read; an empty entry, or an exhausted script, is a read
    that timed out with nothing. */
module Transport {

  type byte = x: int | 0 <= x < 256

  type Script = seq<seq<byte>>

  /** The result of a read: what remains of the script and the bytes returned. */
  datatype Received = Received(rest: Script, bytes: seq<byte>)

  /** Every byte the script still holds, in arrival order. */
  function Flatten(s: Script): seq<byte> {
    if s == [] then [] else s[0] + Flatten(s[1..])
  }

  /** How many bytes the script still holds. */
  function Size(s: Script): nat {
    if s == [] then 0 else |s[0]| + Size(s[1..])
  }

  /** One `ser.read(k)` with a timeout: up to `k` bytes, or none on a timeout. */
  function Read(s: Script, k: nat): (r: Received)
    ensures |r.bytes| <= k
    ensures Size(s) == |r.bytes| + Size(r.rest)
  {
    if s == [] then Received([], [])
    else if |s[0]| <= k then Received(s[1..], s[0])
    else
      assert Size([s[0][k..]] + s[1..]) == |s[0]| - k + Size(s[1..]) by {
        assert ([s[0][k..]] + s[1..])[1..] == s[1..];
      }
      Received([s[0][k..]] + s[1..], s[0][..k])
  }

  /** `_read_exact(n)`: reads until `n` bytes have arrived or a read returns nothing;
      each read asks for the number of bytes still missing. */
  function ReadExact(s: Script, n: nat): (r: Received)
    ensures |r.bytes| <= n
    ensures Size(s) == |r.bytes| + Size(r.rest)
    decreases n
  {
    if n == 0 then Received(s, [])
    else
      var got := Read(s, n);
      if got.bytes == [] then got
      else
        var more := ReadExact(got.rest, n - |got.bytes|);
        Received(more.rest, got.bytes + more.bytes)
  }

  /** No read of the script times out: every entry brings at least one byte. */
  predicate NoTimeout(s: Script) {
    forall i :: 0 <= i < |s| ==> s[i] != []
  }

  const Ack: byte := 0x58  // 'X'

  /** How many acknowledgment bytes `bs` holds; every other byte is noise. */
  function CountAcks(bs: seq<byte>): (c: nat)
    ensures c <= |bs|
  {
    if bs == [] then 0 else (if bs[0] == Ack then 1 else 0) + CountAcks(bs[1..])
  }

  // ---------------------------------------------------------------------------
  // Lemmas

  lemma {:induction false} FlattenAppend(a: Script, b: Script)
    ensures Flatten(a + b) == Flatten(a) + Flatten(b)
  {
    if a == [] {
      assert a + b == b;
    } else {
      assert (a + b)[0] == a[0];
      assert (a + b)[1..] == a[1..] + b;
      FlattenAppend(a[1..], b);
    }
  }

  lemma {:induction false} CountAcksAppend(a: seq<byte>, b: seq<byte>)
    ensures CountAcks(a + b) == CountAcks(a) + CountAcks(b)
  {
    if a == [] {
      assert a + b == b;
    } else {
      assert (a + b)[0] == a[0];
      assert (a + b)[1..] == a[1..] + b;
      CountAcksAppend(a[1..], b);
    }
  }

  /** A read returns the next bytes of the stream, losing and reordering none. */
  lemma ReadConserves(s: Script, k: nat)
    ensures Flatten(s) == Read(s, k).bytes + Flatten(Read(s, k).rest)
  {
    if s != [] && |s[0]| > k {
      var t := [s[0][k..]] + s[1..];
      assert t[1..] == s[1..];
      assert s[0] == s[0][..k] + s[0][k..];
    }
  }

  /** `_read_exact` returns the next bytes of the stream, losing and reordering none. */
  lemma {:induction false} ReadExactConserves(s: Script, n: nat)
    ensures Flatten(s) == ReadExact(s, n).bytes + Flatten(ReadExact(s, n).rest)
    decreases n
  {
    if n == 0 {
      assert [] + Flatten(s) == Flatten(s);
    } else {
      var got := Read(s, n);
      ReadConserves(s, n);
      if got.bytes != [] {
        var m := n - |got.bytes|;
        ReadExactConserves(got.rest, m);
        var more := ReadExact(got.rest, m);
        ReadExactStep(s, n, got, more);
        ConservesChain(Flatten(s), got.bytes, more.bytes, Flatten(got.rest), Flatten(more.rest));
      }
    }
  }

  /** Two reads in a row conserve the stream when each does. */
  lemma ConservesChain(all: seq<byte>, first: seq<byte>, second: seq<byte>, mid: seq<byte>,
                       last: seq<byte>)
    requires all == first + mid && mid == second + last
    ensures all == (first + second) + last
  {
  }

  /** `_read_exact` unfolded once, for the first read `got` it makes and the rest
      `more` it reads after it. */
  lemma ReadExactStep(s: Script, n: nat, got: Received, more: Received)
    requires n > 0 && got == Read(s, n) && got.bytes != []
    requires more == ReadExact(got.rest, n - |got.bytes|)
    ensures ReadExact(s, n) == Received(more.rest, got.bytes + more.bytes)
  {
  }

  /** A read that finds a non-empty entry no longer than `n` takes that entry whole
      and goes on reading the bytes still missing from the entries after it. */
  lemma ReadExactShortEntry(s: Script, n: nat)
    requires s != [] && 0 < |s[0]| <= n
    ensures ReadExact(s, n).bytes == s[0] + ReadExact(s[1..], n - |s[0]|).bytes
    ensures |ReadExact(s, n).bytes| >= |s[0]|
    ensures ReadExact(s, n).bytes[..|s[0]|] == s[0]
  {
    var more := ReadExact(s[1..], n - |s[0]|);
    assert ReadExact(s, n).bytes == s[0] + more.bytes;
  }

  /** The bytes a script still holds are those it flattens to. */
  lemma {:induction false} SizeFlatten(s: Script)
    ensures Size(s) == |Flatten(s)|
  {
    if s != [] {
      SizeFlatten(s[1..]);
    }
  }

  /** A read from a script without timeouts returns something whenever it asks for
      something and the script is not exhausted, and leaves a script without
      timeouts. */
  lemma ReadKeepsNoTimeout(s: Script, k: nat)
    requires NoTimeout(s)
    ensures NoTimeout(Read(s, k).rest)
    ensures k > 0 && s != [] ==> Read(s, k).bytes != []
  {
    if s != [] && |s[0]| > k {
      var t := [s[0][k..]] + s[1..];
      assert forall i :: 1 <= i < |t| ==> t[i] == s[i];
    }
  }

  /** The same for `_read_exact`. */
  lemma {:induction false} ReadExactKeepsNoTimeout(s: Script, n: nat)
    requires NoTimeout(s)
    ensures NoTimeout(ReadExact(s, n).rest)
    ensures n > 0 && s != [] ==> ReadExact(s, n).bytes != []
    decreases n
  {
    if n > 0 {
      var got := Read(s, n);
      ReadKeepsNoTimeout(s, n);
      if got.bytes != [] {
        var m := n - |got.bytes|;
        ReadExactKeepsNoTimeout(got.rest, m);
        ReadExactStep(s, n, got, ReadExact(got.rest, m));
      }
    }
  }

  /** `_read_exact(n)` returns all `n` bytes when the stream holds them and no read
      times out on the way. */
  lemma {:induction false} ReadExactFull(s: Script, n: nat)
    requires NoTimeout(s) && Size(s) >= n
    ensures |ReadExact(s, n).bytes| == n
    decreases n
  {
    if n > 0 {
      var got := Read(s, n);
      ReadKeepsNoTimeout(s, n);
      var m := n - |got.bytes|;
      ReadExactFull(got.rest, m);
      ReadExactStep(s, n, got, ReadExact(got.rest, m));
    }
  }

  /** A run of acknowledgment bytes counts in full. */
  lemma {:induction false} CountAcksAllAcks(bs: seq<byte>)
    requires forall i :: 0 <= i < |bs| ==> bs[i] == Ack
    ensures CountAcks(bs) == |bs|
  {
    if bs != [] {
      CountAcksAllAcks(bs[1..]);
    }
  }

  /** When the next entry already holds `n > 0` bytes, `_read_exact(n)` returns exactly
      its first `n` bytes in a single read, and the remainder of that entry stays
      buffered for the next read. */
  lemma ReadExactFromEntry(s: Script, n: nat)
    requires s != [] && |s[0]| >= n > 0
    ensures ReadExact(s, n).bytes == s[0][..n]
    ensures ReadExact(s, n).rest == if |s[0]| == n then s[1..] else [s[0][n..]] + s[1..]
  {
    var got := Read(s, n);
    assert got.bytes == s[0][..n];
    assert ReadExact(got.rest, 0) == Received(got.rest, []);
    assert got.bytes + [] == got.bytes;
  }

  /** A read on a stream whose next entry is a timeout returns nothing. */
  lemma ReadExactTimeout(s: Script, n: nat)
    requires n > 0 && (s == [] || s[0] == [])
    ensures ReadExact(s, n).bytes == []
  {
  }
}

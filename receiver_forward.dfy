/**
 * The receiver loop: reads from the serial read half into a 10 KiB buffer,
 * logs the fix record of each chunk, and forwards every non-empty chunk to
 * the downstream client until a write to it fails.
 */
module ReceiverForward {
  import opened Wrappers
  import opened Text
  import opened Sinks
  import opened FixExtractor

  /** The size of the read buffer, and so the most one read returns. */
  const ReadBufferSize: nat := 10 * 1024

  /** The result of one read from the serial read half. */
  datatype ReadResult = Received(bytes: seq<byte>) | ReadFailed

  /** A chunk that the loop forwards: a read that succeeded with at least one byte. */
  predicate Forwards(r: ReadResult) {
    r.Received? && |r.bytes| > 0
  }

  /**
   * The reads the loop can decode as text: each successful read fits the
   * buffer and is ASCII.
   */
  predicate TextReads(results: seq<ReadResult>) {
    forall i :: 0 <= i < |results| && results[i].Received? ==>
      |results[i].bytes| <= ReadBufferSize && IsAsciiBytes(results[i].bytes)
  }

  /** The bytes of the chunks forwarded from `results`, concatenated in order. */
  function ForwardedBytes(results: seq<ReadResult>): seq<byte> {
    if results == [] then []
    else (if Forwards(results[0]) then results[0].bytes else []) + ForwardedBytes(results[1..])
  }

  /** The number of chunks in `results` that are forwarded: one socket write each. */
  function ForwardCount(results: seq<ReadResult>): (n: nat)
    ensures n <= |results|
  {
    if results == [] then 0 else (if Forwards(results[0]) then 1 else 0) + ForwardCount(results[1..])
  }

  /** The fix record logged for one read, if any. */
  function FixOf(r: ReadResult): (logged: seq<string>)
    requires r.Received? ==> IsAsciiBytes(r.bytes)
    ensures |logged| <= 1
    ensures logged == [] <==> r.ReadFailed? || forall j: nat :: !OccursAt(AsciiText(r.bytes), Marker, j)
  {
    if r.ReadFailed? then []
    else match ExtractFix(AsciiText(r.bytes))
      case Some(fix) => [fix]
      case None => []
  }

  /** The fix records logged while processing the first `n` of `results`, in order. */
  function FixLog(results: seq<ReadResult>, n: nat): seq<string>
    requires TextReads(results) && n <= |results|
  {
    if n == 0 then [] else FixLog(results, n - 1) + FixOf(results[n - 1])
  }

  /**
   * What the loop does to the downstream socket from read `i` on: the
   * socket afterwards, how many reads have been taken in all, and whether
   * the loop ended because a write failed. Fix extraction plays no part in
   * it. The loop takes no read beyond the last, ends early only at a failed
   * write, and leaves the socket's fault as it was.
   */
  function Forward(results: seq<ReadResult>, i: nat, socket: Sink): (r: (Sink, nat, bool))
    requires i <= |results|
    ensures i <= r.1 <= |results|
    ensures r.1 < |results| ==> r.2
    ensures r.0.fault == socket.fault
    decreases |results| - i
  {
    if i == |results| then (socket, i, false)
    else if !Forwards(results[i]) then Forward(results, i + 1, socket)
    else
      var (next, ok) := WriteAll(socket, results[i].bytes);
      if !ok then (next, i + 1, true) else Forward(results, i + 1, next)
  }

  /** The forwarded bytes and writes from read `i` on, with read `i` taken apart. */
  lemma ForwardedFrom(results: seq<ReadResult>, i: nat)
    requires i < |results|
    ensures ForwardedBytes(results[i..])
      == (if Forwards(results[i]) then results[i].bytes else []) + ForwardedBytes(results[i + 1..])
    ensures ForwardCount(results[i..]) == (if Forwards(results[i]) then 1 else 0) + ForwardCount(results[i + 1..])
  {
    assert results[i..][0] == results[i];
    assert results[i..][1..] == results[i + 1..];
  }

  /**
   * The socket only ever receives a prefix of the bytes forwarded from read
   * `i` on, and a loop that ended at a failed write did so right after a
   * non-empty read.
   */
  lemma {:induction false} ForwardDeliversPrefix(results: seq<ReadResult>, i: nat, socket: Sink)
    requires i <= |results|
    ensures var r := Forward(results, i, socket);
      socket.delivered <= r.0.delivered <= socket.delivered + ForwardedBytes(results[i..])
      && (r.2 ==> i < r.1 && Forwards(results[r.1 - 1]))
    decreases |results| - i
  {
    if i == |results| {
      assert socket.delivered + ForwardedBytes(results[i..]) == socket.delivered;
    } else {
      ForwardedFrom(results, i);
      var rest := ForwardedBytes(results[i + 1..]);
      if !Forwards(results[i]) {
        ForwardDeliversPrefix(results, i + 1, socket);
      } else {
        var chunk := results[i].bytes;
        var (next, ok) := WriteAll(socket, chunk);
        if ok {
          ForwardDeliversPrefix(results, i + 1, next);
          PrefixWithin(socket.delivered, chunk, rest, Forward(results, i + 1, next).0.delivered);
        } else {
          PrefixExtends(next.delivered, socket.delivered + chunk, rest);
          assert socket.delivered + chunk + rest == socket.delivered + (chunk + rest);
        }
      }
    }
  }

  /**
   * One pass of the receiver loop over a read: a successful read is decoded
   * and scanned, and its fix record logged; a non-empty one is then written
   * to the socket. `ok` is false when that write failed.
   */
  method HandleRead(r: ReadResult, socket: Sink) returns (socket': Sink, logged: seq<string>, ok: bool)
    requires r.Received? ==> IsAsciiBytes(r.bytes)
    ensures logged == FixOf(r)
    ensures !Forwards(r) ==> socket' == socket && ok
    ensures Forwards(r) ==> (socket', ok) == WriteAll(socket, r.bytes)
  {
    socket', logged, ok := socket, [], true;
    match r {
      case ReadFailed =>
      case Received(bytes) =>
        var text := AsciiText(bytes);
        var found := ExtractFix(text);
        if found.Some? {
          logged := [found.value];
        }
        if |bytes| > 0 {
          var written := WriteAll(socket, bytes);
          socket', ok := written.0, written.1;
        }
    }
  }

  /**
   * The receiver loop over the reads available: each read is handled in
   * turn, and the first failed write to the socket ends the loop.
   */
  method ForwardLoop(results: seq<ReadResult>, socket: Sink) returns (socket': Sink, log: seq<string>, clientGone: bool)
    requires TextReads(results)
    ensures socket' == Forward(results, 0, socket).0
    ensures clientGone == Forward(results, 0, socket).2
    ensures log == FixLog(results, Forward(results, 0, socket).1)
  {
    clientGone := false;
    socket' := socket;
    log := [];
    var i := 0;
    while i < |results|
      invariant 0 <= i <= |results|
      invariant Forward(results, 0, socket) == Forward(results, i, socket')
      invariant log == FixLog(results, i)
    {
      var logged, ok;
      socket', logged, ok := HandleRead(results[i], socket');
      log := log + logged;
      if !ok {
        clientGone := true;
        return;
      }
      i := i + 1;
    }
  }

  /** The socket after every chunk of `results` was forwarded without a failure. */
  function AfterForwarding(socket: Sink, results: seq<ReadResult>): Sink {
    Sink(socket.delivered + ForwardedBytes(results), socket.calls + ForwardCount(results), socket.fault)
  }

  lemma {:induction false} ForwardedAppend(a: seq<ReadResult>, b: seq<ReadResult>)
    ensures ForwardedBytes(a + b) == ForwardedBytes(a) + ForwardedBytes(b)
    ensures ForwardCount(a + b) == ForwardCount(a) + ForwardCount(b)
    decreases |a|
  {
    if a == [] {
      assert a + b == b;
    } else {
      assert (a + b)[0] == a[0];
      assert (a + b)[1..] == a[1..] + b;
      ForwardedAppend(a[1..], b);
    }
  }

  lemma AfterForwardingAppend(socket: Sink, a: seq<ReadResult>, b: seq<ReadResult>)
    ensures AfterForwarding(AfterForwarding(socket, a), b) == AfterForwarding(socket, a + b)
    ensures HealthyFor(socket, ForwardCount(a + b)) ==>
      HealthyFor(socket, ForwardCount(a)) && HealthyFor(AfterForwarding(socket, a), ForwardCount(b))
  {
    ForwardedAppend(a, b);
    var mid := AfterForwarding(socket, a);
    AppendAssociative(socket.delivered, ForwardedBytes(a), ForwardedBytes(b));
    assert mid.delivered + ForwardedBytes(b) == socket.delivered + ForwardedBytes(a + b);
    if HealthyFor(socket, ForwardCount(a + b)) {
      HealthySplit(socket, ForwardCount(a), ForwardCount(b), mid);
    }
  }

  /**
   * Reads `i` to `k` whose writes all succeed are forwarded in full, and
   * the loop carries on from read `k` from there.
   */
  lemma {:induction false} ForwardSkipsHealthyPrefix(results: seq<ReadResult>, socket: Sink, i: nat, k: nat)
    requires i <= k <= |results|
    requires HealthyFor(socket, ForwardCount(results[i..k]))
    ensures Forward(results, i, socket) == Forward(results, k, AfterForwarding(socket, results[i..k]))
    decreases k - i
  {
    if i == k {
      assert results[i..k] == [];
      assert socket.delivered + [] == socket.delivered;
      assert AfterForwarding(socket, []) == socket;
    } else {
      var first := [results[i]];
      assert results[i..k] == first + results[i + 1..k];
      AfterForwardingAppend(socket, first, results[i + 1..k]);
      var next := AfterForwarding(socket, first);
      assert first[1..] == [];
      assert ForwardedBytes(first) == (if Forwards(results[i]) then results[i].bytes else []);
      if Forwards(results[i]) {
        assert next == WriteAll(socket, results[i].bytes).0;
      } else {
        assert socket.delivered + [] == socket.delivered;
        assert next == socket;
      }
      ForwardSkipsHealthyPrefix(results, next, i + 1, k);
    }
  }

  /**
   * While no write fails, every successful non-empty read reaches the
   * client exactly once and in read order; empty reads and read errors send
   * nothing; the loop runs through all the reads.
   */
  lemma ForwardDeliversAll(results: seq<ReadResult>, socket: Sink)
    requires HealthyFor(socket, ForwardCount(results))
    ensures Forward(results, 0, socket) == (AfterForwarding(socket, results), |results|, false)
  {
    assert results[0..|results|] == results;
    ForwardSkipsHealthyPrefix(results, socket, 0, |results|);
  }

  /**
   * The first failed write ends the loop: the client holds the chunks read
   * before it and the part of the failing chunk the socket accepted; no
   * later read is taken.
   */
  lemma ForwardStopsAtWriteFault(results: seq<ReadResult>, socket: Sink, k: nat)
    requires k < |results| && Forwards(results[k])
    requires socket.fault.Some? && socket.fault.value.call == socket.calls + ForwardCount(results[..k])
    ensures var before := AfterForwarding(socket, results[..k]);
      Forward(results, 0, socket).1 == k + 1 && Forward(results, 0, socket).2
      && Forward(results, 0, socket).0.delivered
         == socket.delivered + ForwardedBytes(results[..k]) + results[k].bytes[..AcceptedBytes(before, results[k].bytes)]
  {
    assert results[0..k] == results[..k];
    ForwardSkipsHealthyPrefix(results, socket, 0, k);
  }

  lemma FixOfShape(r: ReadResult)
    requires r.Received? ==> IsAsciiBytes(r.bytes)
    ensures forall f :: f in FixOf(r) ==> SentenceShaped(f)
  {
    if r.Received? {
      var text := AsciiText(r.bytes);
      if ExtractFix(text).Some? {
        FixShape(text);
        assert FixOf(r) == [ExtractFix(text).value];
      }
    }
  }

  /** Every record in the log begins with the marker and holds no carriage return. */
  lemma {:induction false} FixLogShape(results: seq<ReadResult>, n: nat)
    requires TextReads(results) && n <= |results|
    ensures forall f :: f in FixLog(results, n) ==> SentenceShaped(f)
    decreases n
  {
    if n > 0 {
      FixLogShape(results, n - 1);
      FixOfShape(results[n - 1]);
    }
  }
}

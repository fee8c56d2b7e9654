/**
 * A byte sink reached through `write_all`: the serial write half and the
 * downstream TCP socket are both of this kind. A sink records what it has
 * received and how many `write_all` calls were made; it may hold one fault,
 * the call that fails after accepting some of its bytes.
 */
module Sinks {
  import opened Wrappers
  import opened Text

  /** Call number `call` (counting from 0) fails after `accepted` bytes. */
  datatype Fault = Fault(call: nat, accepted: nat)

  datatype Sink = Sink(delivered: seq<byte>, calls: nat, fault: Option<Fault>)

  /** The next call to `write_all` on `s` fails. */
  predicate FailsNext(s: Sink) {
    s.fault.Some? && s.fault.value.call == s.calls
  }

  /** None of the next `n` calls on `s` fails. */
  predicate HealthyFor(s: Sink, n: nat) {
    s.fault.None? || !(s.calls <= s.fault.value.call < s.calls + n)
  }

  /** How many bytes of `chunk` the failing call accepts. */
  function AcceptedBytes(s: Sink, chunk: seq<byte>): (k: nat)
    requires FailsNext(s)
    ensures k <= |chunk|
  {
    if s.fault.value.accepted <= |chunk| then s.fault.value.accepted else |chunk|
  }

  /**
   * `write_all(chunk)`: the whole chunk on success; on the failing call only
   * the bytes accepted before the failure, and `false`.
   */
  function WriteAll(s: Sink, chunk: seq<byte>): (r: (Sink, bool))
    ensures r.1 <==> !FailsNext(s)
    ensures r.0.calls == s.calls + 1 && r.0.fault == s.fault
    ensures r.1 ==> r.0.delivered == s.delivered + chunk
    ensures !r.1 ==> r.0.delivered == s.delivered + chunk[..AcceptedBytes(s, chunk)]
    ensures s.delivered <= r.0.delivered <= s.delivered + chunk
  {
    if FailsNext(s) then
      (Sink(s.delivered + chunk[..AcceptedBytes(s, chunk)], s.calls + 1, s.fault), false)
    else
      (Sink(s.delivered + chunk, s.calls + 1, s.fault), true)
  }

  /** A sequence lying between `d + c` and `d + c + p` lies between `d` and `d + (c + p)`. */
  lemma PrefixWithin(d: seq<byte>, c: seq<byte>, p: seq<byte>, e: seq<byte>)
    requires d + c <= e <= d + c + p
    ensures d <= e <= d + (c + p)
  {
    assert d + c + p == d + (c + p);
  }

  /** A prefix of `a` is a prefix of every extension of `a`. */
  lemma PrefixExtends(e: seq<byte>, a: seq<byte>, p: seq<byte>)
    requires e <= a
    ensures e <= a + p
  {
  }

  /** Concatenation of byte sequences is associative. */
  lemma AppendAssociative(x: seq<byte>, y: seq<byte>, z: seq<byte>)
    ensures x + y + z == x + (y + z)
  {
    assert |x + y + z| == |x + (y + z)|;
    forall i | 0 <= i < |x + y + z| ensures (x + y + z)[i] == (x + (y + z))[i] {
    }
  }

  /**
   * When none of the next `m + n` calls on `s` fails, none of the next `m`
   * fails, and none of the `n` after those fails on `t`, the sink `m` calls later.
   */
  lemma HealthySplit(s: Sink, m: nat, n: nat, t: Sink)
    requires t.calls == s.calls + m && t.fault == s.fault
    requires HealthyFor(s, m + n)
    ensures HealthyFor(s, m) && HealthyFor(t, n)
  {
  }
}

/**
 * The correction relay: drains the caster's body frames and writes each data
 * frame, whole and in order, to the serial write half before taking the next.
 */
module CorrectionRelay {
  import opened Wrappers
  import opened Text
  import opened Sinks
  import opened CasterClient

  datatype RelayError = BodyFailed | SerialWriteFailed

  /** The data payloads of `frames`, concatenated in order; other frames add nothing. */
  function Payloads(frames: seq<BodyFrame>): seq<byte> {
    if frames == [] then []
    else (if frames[0].Data? then frames[0].payload else []) + Payloads(frames[1..])
  }

  /** The number of data frames in `frames`: one serial write each. */
  function DataFrameCount(frames: seq<BodyFrame>): (n: nat)
    ensures n <= |frames|
  {
    if frames == [] then 0 else (if frames[0].Data? then 1 else 0) + DataFrameCount(frames[1..])
  }

  /** No frame of `frames` is an error. */
  predicate Clean(frames: seq<BodyFrame>) {
    forall i :: 0 <= i < |frames| ==> !frames[i].FrameError?
  }

  /**
   * What the relay does with `frames` when the serial side starts as `port`:
   * the serial side afterwards, and how the relay ends. The serial side's
   * fault stays as it was (`RelayDeliversPrefix` states what it receives).
   */
  function Relay(frames: seq<BodyFrame>, port: Sink): (r: (Sink, Result<(), RelayError>))
    ensures r.0.fault == port.fault
    ensures r.0.calls <= port.calls + DataFrameCount(frames)
    decreases |frames|
  {
    if frames == [] then (port, Ok(()))
    else
      match frames[0]
      case FrameError => (port, Err(BodyFailed))
      case Trailers => Relay(frames[1..], port)
      case Data(chunk) =>
        var (next, ok) := WriteAll(port, chunk);
        if !ok then (next, Err(SerialWriteFailed)) else Relay(frames[1..], next)
  }

  /**
   * The bytes delivered only ever extend what was there, by a prefix of the
   * payloads; when the relay ends normally they are all of the payloads.
   */
  lemma {:induction false} RelayDeliversPrefix(frames: seq<BodyFrame>, port: Sink)
    ensures var r := Relay(frames, port);
      port.delivered <= r.0.delivered <= port.delivered + Payloads(frames)
      && (r.1.Ok? ==> r.0.delivered == port.delivered + Payloads(frames))
    decreases |frames|
  {
    if frames != [] {
      var rest := frames[1..];
      assert Payloads(frames) == (if frames[0].Data? then frames[0].payload else []) + Payloads(rest);
      match frames[0]
      case FrameError =>
        PrefixExtends(port.delivered, port.delivered, Payloads(frames));
      case Trailers =>
        RelayDeliversPrefix(rest, port);
      case Data(chunk) =>
        var (next, ok) := WriteAll(port, chunk);
        if ok {
          RelayDeliversPrefix(rest, next);
          PrefixWithin(port.delivered, chunk, Payloads(rest), Relay(rest, next).0.delivered);
        } else {
          PrefixExtends(next.delivered, port.delivered + chunk, Payloads(rest));
          assert port.delivered + chunk + Payloads(rest) == port.delivered + Payloads(frames);
        }
    }
  }

  /**
   * The relay loop: takes frames while there are any; an error frame ends
   * it, a data frame is written whole to the serial side, a failed write ends it.
   */
  method CopyNtripData(body: seq<BodyFrame>, port: Sink) returns (port': Sink, r: Result<(), RelayError>)
    ensures (port', r) == Relay(body, port)
  {
    port' := port;
    var i := 0;
    while i < |body|
      invariant 0 <= i <= |body|
      invariant Relay(body[i..], port') == Relay(body, port)
    {
      assert body[i..][1..] == body[i + 1..];
      match body[i] {
        case FrameError =>
          return port', Err(BodyFailed);
        case Trailers =>
        case Data(chunk) =>
          var written := WriteAll(port', chunk);
          port' := written.0;
          if !written.1 {
            return port', Err(SerialWriteFailed);
          }
      }
      i := i + 1;
    }
    r := Ok(());
  }

  /** The serial side after `frames` were all written to `port` without a failure. */
  function AfterWrites(port: Sink, frames: seq<BodyFrame>): Sink {
    Sink(port.delivered + Payloads(frames), port.calls + DataFrameCount(frames), port.fault)
  }

  lemma {:induction false} PayloadsAppend(a: seq<BodyFrame>, b: seq<BodyFrame>)
    ensures Payloads(a + b) == Payloads(a) + Payloads(b)
    ensures DataFrameCount(a + b) == DataFrameCount(a) + DataFrameCount(b)
    decreases |a|
  {
    if a == [] {
      assert a + b == b;
    } else {
      assert (a + b)[0] == a[0];
      assert (a + b)[1..] == a[1..] + b;
      PayloadsAppend(a[1..], b);
    }
  }

  lemma AfterWritesAppend(port: Sink, a: seq<BodyFrame>, b: seq<BodyFrame>)
    ensures AfterWrites(AfterWrites(port, a), b) == AfterWrites(port, a + b)
    ensures HealthyFor(port, DataFrameCount(a + b)) ==>
      HealthyFor(port, DataFrameCount(a)) && HealthyFor(AfterWrites(port, a), DataFrameCount(b))
  {
    PayloadsAppend(a, b);
    var mid := AfterWrites(port, a);
    AppendAssociative(port.delivered, Payloads(a), Payloads(b));
    assert mid.delivered + Payloads(b) == port.delivered + Payloads(a + b);
    if HealthyFor(port, DataFrameCount(a + b)) {
      HealthySplit(port, DataFrameCount(a), DataFrameCount(b), mid);
    }
  }

  /** One frame that is not an error, written without a failure, moves the relay on by one frame. */
  lemma RelayStep(frames: seq<BodyFrame>, port: Sink)
    requires frames != [] && !frames[0].FrameError?
    requires HealthyFor(port, DataFrameCount(frames[..1]))
    ensures Relay(frames, port) == Relay(frames[1..], AfterWrites(port, frames[..1]))
  {
    assert frames[..1] == [frames[0]];
    assert frames[..1][1..] == [];
    assert Payloads(frames[..1]) == if frames[0].Data? then frames[0].payload else [];
    match frames[0]
    case Trailers =>
      assert AfterWrites(port, frames[..1]) == port;
    case Data(chunk) =>
      assert AfterWrites(port, frames[..1]) == WriteAll(port, chunk).0;
  }

  /**
   * A prefix of error-free frames whose writes all succeed is relayed in
   * full, and the relay carries on with the rest from there.
   */
  lemma {:induction false} RelaySkipsHealthyPrefix(frames: seq<BodyFrame>, port: Sink, k: nat)
    requires k <= |frames|
    requires Clean(frames[..k])
    requires HealthyFor(port, DataFrameCount(frames[..k]))
    ensures Relay(frames, port) == Relay(frames[k..], AfterWrites(port, frames[..k]))
    decreases k
  {
    if k == 0 {
      assert frames[..0] == [];
      assert frames[0..] == frames;
      assert port.delivered + [] == port.delivered;
      assert AfterWrites(port, []) == port;
    } else {
      var first, rest := frames[..1], frames[1..][..k - 1];
      assert frames[..k] == first + rest;
      assert frames[1..][k - 1..] == frames[k..];
      assert frames[..k][0] == frames[0];
      assert Clean(rest) by {
        assert rest == frames[..k][1..];
      }
      AfterWritesAppend(port, first, rest);
      RelayStep(frames, port);
      RelaySkipsHealthyPrefix(frames[1..], AfterWrites(port, first), k - 1);
    }
  }

  /** With no error frame and no failed write, every payload reaches the serial side, each once. */
  lemma RelayDeliversAll(frames: seq<BodyFrame>, port: Sink)
    requires Clean(frames)
    requires HealthyFor(port, DataFrameCount(frames))
    ensures Relay(frames, port) == (AfterWrites(port, frames), Ok(()))
  {
    assert frames[..|frames|] == frames;
    RelaySkipsHealthyPrefix(frames, port, |frames|);
    assert frames[|frames|..] == [];
  }

  /** The relay ends normally exactly when no frame is an error and no write fails. */
  lemma {:induction false} RelayEndsNormallyIff(frames: seq<BodyFrame>, port: Sink)
    ensures Relay(frames, port).1.Ok? <==> Clean(frames) && HealthyFor(port, DataFrameCount(frames))
    decreases |frames|
  {
    if frames != [] {
      RelayEndsNormallyIff(frames[1..], port);
      assert Clean(frames) <==> !frames[0].FrameError? && Clean(frames[1..]) by {
        if !frames[0].FrameError? && Clean(frames[1..]) {
          forall i | 0 <= i < |frames| ensures !frames[i].FrameError? {
            if i > 0 { assert frames[i] == frames[1..][i - 1]; }
          }
        }
      }
      match frames[0]
      case FrameError =>
      case Trailers =>
      case Data(chunk) =>
        RelayEndsNormallyIff(frames[1..], WriteAll(port, chunk).0);
    }
  }

  /**
   * At the first error frame the relay stops: the serial side holds exactly
   * the payloads of the frames before it.
   */
  lemma RelayStopsAtFrameError(frames: seq<BodyFrame>, port: Sink, k: nat)
    requires k < |frames| && frames[k].FrameError?
    requires Clean(frames[..k])
    requires HealthyFor(port, DataFrameCount(frames[..k]))
    ensures Relay(frames, port) == (AfterWrites(port, frames[..k]), Err(BodyFailed))
  {
    RelaySkipsHealthyPrefix(frames, port, k);
  }

  /**
   * At the first failed serial write the relay stops: the serial side holds
   * the payloads of the frames before it and the part of the failing frame
   * the port accepted, and nothing after.
   */
  lemma RelayStopsAtWriteFault(frames: seq<BodyFrame>, port: Sink, k: nat)
    requires k < |frames| && frames[k].Data?
    requires Clean(frames[..k])
    requires port.fault.Some? && port.fault.value.call == port.calls + DataFrameCount(frames[..k])
    ensures var before := AfterWrites(port, frames[..k]);
      Relay(frames, port).1 == Err(SerialWriteFailed)
      && Relay(frames, port).0.delivered
         == port.delivered + Payloads(frames[..k]) + frames[k].payload[..AcceptedBytes(before, frames[k].payload)]
  {
    RelaySkipsHealthyPrefix(frames, port, k);
  }
}

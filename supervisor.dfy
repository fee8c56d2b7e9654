/**
 * One run of the correction process: the device path is fixed, the caster
 * is reached, the serial port is opened, the correction relay is started,
 * one downstream client is accepted, and the receiver loop runs until that
 * client is gone; the run then waits for the relay and reports its end.
 * The relay and the receiver loop run concurrently and share nothing: the
 * serial side written by one and the socket written by the other are
 * modelled as two independent sinks.
 */
module Supervisor {
  import opened Wrappers
  import opened Text
  import opened Sinks
  import opened CasterClient
  import opened CorrectionRelay
  import opened ReceiverForward
  import opened SerialPorts
  import opened FixExtractor

  datatype StartError = CasterFailed(cause: CasterError) | ListenFailed | RelayFailed(reason: RelayError)

  /**
   * What a run did: the device it opened, the caster session, both sinks
   * afterwards, the fixes logged, and how it ended. `ended` is None while
   * the receiver loop is still forwarding after the last read observed.
   */
  datatype Run = Run(
    devicePath: string,
    session: Session,
    serial: Sink,
    socket: Sink,
    fixes: seq<string>,
    ended: Option<Result<(), StartError>>)

  function RelayEnding(r: Result<(), RelayError>): Result<(), StartError> {
    match r
    case Ok(_) => Ok(())
    case Err(e) => Err(RelayFailed(e))
  }

  /**
   * `start_process`: `caster` is what the network makes of the caster
   * connection, `serial` the receiver's input, `accepted` whether the
   * listener is bound and a client accepted, `results` the reads from the
   * receiver, and `socket` the downstream client.
   */
  method StartProcess(
    url: Uri, comPort: string, unix: bool, caster: Reply,
    serial: Sink, accepted: bool, results: seq<ReadResult>, socket: Sink)
    returns (run: Run)
    requires url.scheme == Some("http") ==> url.authority.Some?
    requires TextReads(results)
    ensures run.devicePath == DevicePath(comPort, unix)
    ensures run.session == NtripFix(url, caster)
    ensures run.session.result.Err? ==>
      run.ended == Some(Err(CasterFailed(run.session.result.error)))
      && run.serial == serial && run.socket == socket && run.fixes == []
    ensures run.session.result.Ok? ==> run.serial == Relay(run.session.result.value, serial).0
    ensures run.session.result.Ok? && !accepted ==>
      run.ended == Some(Err(ListenFailed)) && run.socket == socket && run.fixes == []
    ensures run.session.result.Ok? && accepted ==>
      var f := Forward(results, 0, socket);
      run.socket == f.0 && run.fixes == FixLog(results, f.1)
      && run.ended == if f.2 then Some(RelayEnding(Relay(run.session.result.value, serial).1)) else None
  {
    var path := DevicePath(comPort, unix);
    var session := NtripFix(url, caster);
    if session.result.Err? {
      return Run(path, session, serial, socket, [], Some(Err(CasterFailed(session.result.error))));
    }
    var serial', relayed := CopyNtripData(session.result.value, serial);
    if !accepted {
      return Run(path, session, serial', socket, [], Some(Err(ListenFailed)));
    }
    var socket', fixes, clientGone := ForwardLoop(results, socket);
    var ended := if clientGone then Some(RelayEnding(relayed)) else None;
    run := Run(path, session, serial', socket', fixes, ended);
  }

  /**
   * After a successful handshake the serial side receives the data of the
   * frames after the first one and nothing of the first frame: the ICY
   * reply, and any bytes that came with it, are never relayed.
   */
  lemma FirstFrameNeverRelayed(status: StatusCode, body: seq<BodyFrame>, serial: Sink)
    requires body != [] && Handshake(status, body).Ok?
    requires Clean(body[1..]) && HealthyFor(serial, DataFrameCount(body[1..]))
    ensures Relay(Handshake(status, body).value, serial).0.delivered == serial.delivered + Payloads(body[1..])
  {
    RelayDeliversAll(body[1..], serial);
  }

  /** Corrections that arrive in the same frame as the ICY reply are dropped. */
  lemma SameFrameCorrectionsDropped(corrections: seq<byte>)
    ensures Handshake(200, [Data(IcyReply + corrections)]) == Ok([])
  {
    var body := [Data(IcyReply + corrections)];
    assert IcyReply <= body[0].payload;
    assert body[1..] == [];
  }

  /** A GGA sentence: a fix at 12:35:19 UTC, 48°07.038' N, 11°31.000' E. */
  const GgaSentence: string :=
    "$GNGGA,123519," + "4807.038,N," + "01131.000,E," + "1,08,0.9," + "545.4,M," + "46.9,M,,*47"

  lemma GgaSentenceIsPlainAscii()
    ensures IsAscii(GgaSentence) && NoCarriageReturn(GgaSentence)
    ensures |GgaSentence| > |Marker| && GgaSentence[..|Marker|] == Marker
  {
    GgaSentenceIsAscii();
    GgaSentenceHasNoCarriageReturn();
    assert GgaSentence[..|Marker|] == "$GNGGA,123519,"[..|Marker|];
  }

  lemma GgaSentenceIsAscii()
    ensures IsAscii(GgaSentence)
  {
    var p1, p2, p3 := "$GNGGA,123519,", "4807.038,N,", "01131.000,E,";
    var p4, p5, p6 := "1,08,0.9,", "545.4,M,", "46.9,M,,*47";
    AsciiConcat(p1, p2);
    AsciiConcat(p1 + p2, p3);
    AsciiConcat(p1 + p2 + p3, p4);
    AsciiConcat(p1 + p2 + p3 + p4, p5);
    AsciiConcat(p1 + p2 + p3 + p4 + p5, p6);
  }

  lemma GgaSentenceHasNoCarriageReturn()
    ensures NoCarriageReturn(GgaSentence)
  {
    var p1, p2, p3 := "$GNGGA,123519,", "4807.038,N,", "01131.000,E,";
    var p4, p5, p6 := "1,08,0.9,", "545.4,M,", "46.9,M,,*47";
    NoCarriageReturnConcat(p1, p2);
    NoCarriageReturnConcat(p1 + p2, p3);
    NoCarriageReturnConcat(p1 + p2 + p3, p4);
    NoCarriageReturnConcat(p1 + p2 + p3 + p4, p5);
    NoCarriageReturnConcat(p1 + p2 + p3 + p4 + p5, p6);
  }

  /** The caster endpoint used end to end. */
  const SampleUri: Uri := Uri(Some("http"), Some(Authority("caster.example:2101", "caster.example", Some(2101))), "/MOUNT")

  /** The address connected to for `SampleUri`. */
  lemma SampleAddress()
    ensures ConnectAddress(SampleUri.authority.value) == "caster.example:2101"
  {
    assert Decimal(2101) == "2101" by {
      assert Decimal(2) == "2";
      assert Decimal(21) == "21";
      assert Decimal(210) == "210";
    }
  }

  /**
   * The caster half of the end-to-end run: the ICY reply, then one frame of
   * twenty correction bytes, which the serial side receives verbatim.
   */
  lemma EndToEndCaster(corrections: seq<byte>, serial: Sink)
    requires |corrections| == 20
    requires HealthyFor(serial, 1)
    ensures var session := NtripFix(SampleUri, Response(200, [Data(IcyReply), Data(corrections)]));
      session.address == Some("caster.example:2101")
      && session.result == Ok([Data(corrections)])
      && Relay(session.result.value, serial).0.delivered == serial.delivered + corrections
  {
    IcyReplyAccepted([Data(corrections)]);
    assert [Data(IcyReply)] + [Data(corrections)] == [Data(IcyReply), Data(corrections)];
    SampleAddress();
    RelayDeliversAll([Data(corrections)], serial);
    assert Payloads([Data(corrections)]) == corrections + Payloads([]);
  }

  /**
   * The receiver half of the end-to-end run: a GGA sentence ending in CR LF,
   * which the client receives verbatim and whose sentence, without the line
   * end, is logged.
   */
  lemma EndToEndReceiver(socket: Sink)
    requires HealthyFor(socket, 1)
    ensures IsAscii(GgaSentence + "\r\n")
    ensures var chunk := AsciiBytes(GgaSentence + "\r\n");
      var results := [Received(chunk)];
      TextReads(results)
      && Forward(results, 0, socket).0.delivered == socket.delivered + chunk
      && FixLog(results, 1) == [GgaSentence]
  {
    var text := GgaSentence + "\r\n";
    GgaSentenceIsPlainAscii();
    AsciiConcat(GgaSentence, "\r\n");
    var chunk := AsciiBytes(text);
    var results := [Received(chunk)];
    assert Forwards(results[0]);
    ForwardDeliversAll(results, socket);
    assert ForwardedBytes(results) == chunk + ForwardedBytes([]);
    GgaChunkRecord();
  }

  /** The record extracted from the GGA sentence followed by CR LF is the sentence. */
  lemma GgaChunkRecord()
    ensures IsAscii(GgaSentence + "\r\n")
    ensures ExtractFix(AsciiText(AsciiBytes(GgaSentence + "\r\n"))) == Some(GgaSentence)
  {
    var text := GgaSentence + "\r\n";
    GgaSentenceIsPlainAscii();
    AsciiConcat(GgaSentence, "\r\n");
    var chunk := AsciiBytes(text);
    assert AsciiText(chunk) == text;
    assert text[..|Marker|] == GgaSentence[..|Marker|];
    assert OccursAt(text, Marker, 0);
    assert text[..|GgaSentence|] == GgaSentence;
    assert text[|GgaSentence|] == '\r';
    RecordIsExtracted(text, 0, GgaSentence);
  }

  /**
   * End to end: the caster answers with the ICY reply and then one frame of
   * twenty correction bytes, which the serial side receives verbatim; the
   * receiver then emits a GGA sentence ending in CR LF, which the client
   * receives verbatim and whose sentence, without the line end, is logged.
   */
  lemma EndToEnd(corrections: seq<byte>, serial: Sink, socket: Sink)
    requires |corrections| == 20
    requires HealthyFor(serial, 1) && HealthyFor(socket, 1)
    ensures var session := NtripFix(SampleUri, Response(200, [Data(IcyReply), Data(corrections)]));
      session.address == Some("caster.example:2101")
      && session.result == Ok([Data(corrections)])
      && Relay(session.result.value, serial).0.delivered == serial.delivered + corrections
    ensures IsAscii(GgaSentence + "\r\n")
    ensures var chunk := AsciiBytes(GgaSentence + "\r\n");
      var results := [Received(chunk)];
      TextReads(results)
      && Forward(results, 0, socket).0.delivered == socket.delivered + chunk
      && FixLog(results, 1) == [GgaSentence]
  {
    EndToEndCaster(corrections, serial);
    EndToEndReceiver(socket);
  }
}

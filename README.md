# GpsCorrect relay — a Dafny model

GpsCorrect bridges an NTRIP caster and a GNSS receiver. It fetches a live
stream of RTCM corrections from the caster over HTTP/1.1. It writes those
bytes to the receiver's serial port. It also relays whatever the receiver
sends back (NMEA sentences) to one TCP client. For each read from the receiver
it logs the first `$GNGGA` position-fix sentence in that read, up to its
carriage return. A second GGA sentence in the same read, a sentence from
another talker (`$GPGGA`, `$GLGGA`), and the part of a sentence that falls
into the next read are not logged.

This project models the sequential logic inside that relay and proves its
properties:

- `FixExtractor`: cutting the `$GNGGA` sentence out of one receiver chunk.
- `CasterClient`: the caster endpoint, the request sent, and the decision on
  the caster's reply (status, then the ICY reply in the first body frame).
- `CorrectionRelay`: `copy_ntrip_data`, the loop that writes every data frame
  to the serial port.
- `ReceiverForward`: the receiver loop in `start_process`, which logs fixes
  and forwards every non-empty read to the client until a write fails.
- `SerialPorts`: the `/dev/` prefix and the port names listed by `list_serial`.
- `Supervisor`: `start_process`, which wires these together.
- `Text`, `Sinks`, `Wrappers`: bytes, substring search, decimal numerals, the
  byte sinks that stand for the serial port and the socket, `Option`/`Result`.

The network and the serial line are inputs and outputs of the model:

- The caster connection is a `Reply`: refused, failed, or a status code with a
  list of body frames.
- The serial write side and the client socket are `Sink` values. A sink
  records the bytes delivered and the number of `write_all` calls. It may hold
  one `Fault`: the call that fails and how many bytes it accepted first.
- The receiver's reads are a finite list of `ReadResult`s.
- The listener (bind and accept on port 6543) is one flag, `accepted`.
- Port enumeration is a `Result` of port names.

## Model

| member | source | states |
|---|---|---|
| `Text.Find` | src/main.rs:86-88 | the first index where the pattern occurs, and no earlier one; none exactly when it occurs nowhere |
| `Text.DecimalRoundTrip` | src/main.rs:208 | the port printed in decimal parses back to the same number |
| `FixExtractor.ExtractFix` | src/main.rs:86-91 | no record exactly when the chunk holds no `$GNGGA` |
| `FixExtractor.ExtractFixFindsRecord` | src/main.rs:86-91 | when the marker first occurs at `start`, the record starts there, holds no CR, and ends at the first CR after it or at the end of the chunk |
| `FixExtractor.RecordIsExtracted` | src/main.rs:86-91 | conversely, any such record at the first marker is exactly what is extracted |
| `FixExtractor.FixShape` | src/main.rs:86-92 | every record begins with `$GNGGA`, holds no CR, and is a contiguous piece of the chunk |
| `FixExtractor.SampleWithTerminator` | src/main.rs:88-89 | `"junk$GNGGA,1,2,3*4\r\nmore"` gives `"$GNGGA,1,2,3*4"` |
| `FixExtractor.SampleWithoutTerminator` | src/main.rs:90 | with no CR after the marker, the record runs to the end of the chunk |
| `FixExtractor.ExtractFixAsWritten` | src/main.rs:86-91 | the extraction as written, with byte offsets used as character counts; no record exactly when there is no marker |
| `FixExtractor.AsWrittenAgreesOnAscii` | src/main.rs:86-91 | on ASCII text the code as written and the intended extraction give the same record |
| `FixExtractor.AsWrittenLosesMarker` | src/main.rs:86-89 | one two-byte character before the marker makes the code as written log `"GNGGA,1"` where `"$GNGGA,1"` is meant |
| `CasterClient.IcyReplyIsText` | src/main.rs:247-248 | the 14 bytes compared are the ASCII text `"ICY 200 OK\r\n\r\n"` |
| `CasterClient.AddressSplitsAtLastColon` | src/main.rs:206-208 | the connect address is the host, a colon, and the port (80 when none is given), and it splits back into exactly these at its last colon |
| `CasterClient.ConnectAddress` | src/main.rs:206-208 | the address starts with the host, then a colon, then only decimal digits; `CasterClient.AddressSplitsAtLastColon` adds that the digits read back as the port, or 80 when the URI has none |
| `CasterClient.BuildRequest` | src/main.rs:221-232 | a GET of the URI over HTTP/1.1 with an empty body, exactly one `Host` header holding the URI's authority, and one `User-Agent: NTRIP GpsCorrect/1.0` |
| `CasterClient.Handshake` | src/main.rs:236-254 | a non-2xx status fails whatever the body; otherwise success exactly when there is no first frame, it is trailers, or its data begins with the ICY reply; a first data frame under 14 bytes is its own error; on success the whole first frame is consumed and the rest is handed on unchanged |
| `CasterClient.NtripFix` | src/main.rs:199-258 | a scheme other than `http` is rejected with no address connected to and no request sent; otherwise it connects to host:port; a request is sent exactly when the connection and the HTTP handshake succeed, and it is the GET request; a refused connection and a failed handshake or send give their own errors; it succeeds exactly when the reply passes the handshake |
| `CasterClient.IcyReplyAccepted` | src/main.rs:240-258 | a 200 reply whose first frame is the ICY reply hands on exactly the frames after it |
| `Sinks.WriteAll` | src/main.rs:193 | `write_all` delivers the whole chunk unless this call is the faulty one; then only a prefix is delivered and it reports failure |
| `CorrectionRelay.Relay` | src/main.rs:186-197 | the relay makes at most one serial write per data frame and leaves the serial side's fault as it was |
| `CorrectionRelay.RelayDeliversPrefix` | src/main.rs:186-197 | the serial side only grows, by a prefix of the concatenated data payloads; when the relay ends normally, by all of them |
| `CorrectionRelay.CopyNtripData` | src/main.rs:186-197 | the loop leaves the serial side and returns the ending that `Relay` specifies |
| `CorrectionRelay.RelaySkipsHealthyPrefix` | src/main.rs:187-195 | error-free frames whose writes succeed are relayed in full, in order, and the relay carries on from the next frame |
| `CorrectionRelay.RelayDeliversAll` | src/main.rs:187-195 | with no error frame and no failed write, the serial side receives the payloads of the data frames concatenated in order, one write per data frame, and the relay ends normally |
| `CorrectionRelay.RelayEndsNormallyIff` | src/main.rs:187-196 | the relay ends normally exactly when no frame is an error and no write fails |
| `CorrectionRelay.RelayStopsAtFrameError` | src/main.rs:188 | at the first error frame the relay stops, and the serial side holds exactly the payloads of the frames before it |
| `CorrectionRelay.RelayStopsAtWriteFault` | src/main.rs:193 | at the first failed write the relay stops; the serial side holds the earlier payloads and the accepted part of the failing one, nothing later |
| `ReceiverForward.Forward` | src/main.rs:57-101 | from read `i` on, the loop takes no read beyond the last and stops before it only because a write failed; the socket's fault is unchanged |
| `ReceiverForward.ForwardDeliversPrefix` | src/main.rs:94-99 | the socket only grows, by a prefix of the bytes forwarded from read `i` on; a loop that ended at a failed write did so right after a non-empty read |
| `ReceiverForward.HandleRead` | src/main.rs:59-99 | one read: its fix record is logged; a non-empty successful read is written once; empty reads and read errors write nothing |
| `ReceiverForward.ForwardLoop` | src/main.rs:57-101 | the loop leaves the socket as `Forward` specifies (which does not depend on fix extraction), reports whether the client is gone, and logs the fix records of the reads it took |
| `ReceiverForward.ForwardSkipsHealthyPrefix` | src/main.rs:94-99 | reads `i` to `k` whose writes succeed are forwarded in full, and the loop carries on from read `k` |
| `ReceiverForward.ForwardDeliversAll` | src/main.rs:59-99 | while no write fails, every successful non-empty read reaches the client exactly once, in read order; empty reads and read errors send nothing |
| `ReceiverForward.ForwardStopsAtWriteFault` | src/main.rs:96-98 | the first failed write ends the loop; the client holds the earlier chunks and the accepted part of the failing one, and no later read is taken |
| `ReceiverForward.FixOf` | src/main.rs:86-92 | a read logs at most one record, and none exactly when it failed or holds no `$GNGGA`; `ReceiverForward.FixOfShape` and `ReceiverForward.FixLogShape` add that every logged record begins with the marker and holds no CR |
| `ReceiverForward.FixLogShape` | src/main.rs:86-92 | every logged record begins with `$GNGGA` and holds no CR |
| `SerialPorts.DevicePath` | src/main.rs:38-41 | on Unix the path is `/dev/` followed by the name; elsewhere it is the name unchanged |
| `SerialPorts.LastSegment` | src/main.rs:180 | the kept name is a suffix of the port name and holds no `/` |
| `SerialPorts.LastSegmentIsLongest` | src/main.rs:180 | that suffix is the whole name or follows a `/`, so it is the last `/`-separated segment |
| `SerialPorts.DevicePathKeepsName` | src/main.rs:38-41 | the device path has the same last segment as the name it was built from |
| `SerialPorts.ListedNameReopens` | src/main.rs:177-181 | a listed name, turned into a device path, again has that name as its last segment |
| `SerialPorts.ListSerial` | src/main.rs:161-184 | no names when enumeration fails; otherwise one name per port, in order, each the last segment of the port name |
| `Supervisor.StartProcess` | src/main.rs:37-106 | a caster failure ends the run before the serial port or the client is touched; otherwise the serial side receives what `Relay` specifies; a listener failure ends the run; else the client gets what `Forward` specifies, and once the client is gone the run ends as the relay did |
| `Supervisor.FirstFrameNeverRelayed` | src/main.rs:240-258 | after a successful handshake and a healthy relay, the serial side receives exactly the payloads of the frames after the first |
| `Supervisor.SameFrameCorrectionsDropped` | src/main.rs:240-258 | corrections that arrive in the same frame as the ICY reply are never relayed |
| `Supervisor.EndToEnd` | src/main.rs:37-106 | ICY reply then 20 correction bytes: the serial side receives the 20 bytes verbatim; a GGA sentence chunk ending in CR LF reaches the client verbatim and the sentence without its line end is logged |

## Behaviour the code does not have

The model follows the code. Where the code falls short of what an NTRIP
client is expected to do, the model shows the shortfall:

- An NTRIP 1.0 caster's reply should lose only its 14-byte `ICY 200 OK` line.
  The code drops the whole first body frame after checking that line, so
  corrections that arrive in the same frame never reach the receiver
  (`Supervisor.SameFrameCorrectionsDropped`).
- A caster that answers with a plain `HTTP/1.1 200` status line should be
  accepted on that line alone. The code checks the status first and then still
  requires the first data frame to begin with the ICY reply.
- The serial port would be opened before the caster is contacted. The code
  reaches the caster first.
- A reconnect loop would restart the relay when the caster stream ends. The
  code runs `start_process` once and nothing restarts it.

## Findings

| source | as written | input that shows it | evidently intended | confidence | as-written member | corrected member |
|---|---|---|---|---|---|---|
| src/main.rs:86-89 | the byte offset returned by `find` is used as a character count in `chars().skip(start)` and `take(end)` | the chunk `"é$GNGGA,1\r"` logs `"GNGGA,1"` | the record starts at the marker: `"$GNGGA,1"` | high; not executed | `FixExtractor.AsWrittenLosesMarker` | `FixExtractor.ExtractFixFindsRecord` |

The receiver loop in the model uses the corrected `ExtractFix`. On ASCII input
it agrees with the code as written (`FixExtractor.AsWrittenAgreesOnAscii`).
The loop's reads are ASCII.

## Left out

- The GTK window, the button and the drop-down (`main`, `build_ui`): presentation only.
- Task spawning and concurrency: the relay and the receiver loop are modelled as two independent runs over separate sinks. The hyper connection driver task is not modelled.
- Real I/O: TCP connect, the listener on port 6543, the serial port at 115200 baud, and port enumeration are replaced by the inputs described above.
- URI parsing and HTTP response parsing inside hyper: the model takes the parsed URI, the status code and the body frames as given.
- Logging through `println!`, except the fix records, which the model returns as a list.
- The serial port open (`unwrap` at line 47) is assumed to succeed. A failed open panics in the source.
- The receiver loop never ends on its own in the source. The model runs over a finite list of reads, and `ended == None` means the loop is still forwarding.
- ReceiverForward.ForwardLoop: requires every read to be ASCII and at most 10 KiB. The source accepts any valid UTF-8 chunk and panics on invalid UTF-8 (line 61). NMEA output is ASCII.
- ReceiverForward.HandleRead: requires an ASCII read, for the same reason.
- Supervisor.StartProcess: requires ASCII reads, as the receiver loop does. It also requires an authority whenever the scheme is `http`. A missing host panics in the source (line 206).
- CasterClient.NtripFix: requires an authority whenever the scheme is `http`. A missing host panics in the source (line 206).
- CasterClient.Handshake: if the first 14 bytes are not valid UTF-8, the source panics (line 247). The model reports `NoIcyPreamble` instead. A first data frame under 14 bytes also panics in the source; the model reports `FirstFrameShort`.

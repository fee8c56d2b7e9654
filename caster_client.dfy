/**
 * The NTRIP caster client: endpoint checks, the request sent, and the
 * decision on the caster's reply. The transport (TCP connect, the HTTP/1.1
 * exchange, response parsing) is abstracted as a `Reply`; URI parsing is
 * abstracted as an already-parsed `Uri`.
 */
module CasterClient {
  import opened Wrappers
  import opened Text

  /** A TCP port number (`u16`). */
  type Port = p: nat | p < 0x1_0000

  /** The port used when the URI names none. */
  const DefaultPort: Port := 80

  /** The authority component of a URI: its text, the host and the port if one is written. */
  datatype Authority = Authority(text: string, host: string, port: Option<Port>)

  /** A parsed caster URI, e.g. `http://caster.example:2101/MOUNT`. */
  datatype Uri = Uri(scheme: Option<string>, authority: Option<Authority>, pathAndQuery: string)

  datatype Header = Header(name: string, value: string)

  datatype Request = Request(
    verb: string,
    target: Uri,
    version: string,
    headers: seq<Header>,
    body: seq<byte>)

  /** An HTTP status code as the HTTP library represents it. */
  type StatusCode = s: nat | 100 <= s < 1000 witness 200

  /** A body frame as the response body yields it, or the error in its place. */
  datatype BodyFrame = Data(payload: seq<byte>) | Trailers | FrameError

  /** What the network makes of one attempt to reach the caster. */
  datatype Reply =
    | Refused                                           // TCP connect fails
    | HandshakeFailed                                   // HTTP/1 connection setup fails
    | SendFailed                                        // sending the request fails
    | Response(status: StatusCode, body: seq<BodyFrame>)

  datatype CasterError =
    | SchemeNotHttp
    | CannotConnect
    | TransportFailed
    | NotSuccess(status: StatusCode)
    | FirstFrameFailed
    | FirstFrameShort
    | NoIcyPreamble

  /** One attempt: where it connected, what it sent, and the correction body it hands on. */
  datatype Session = Session(
    address: Option<string>,
    request: Option<Request>,
    result: Result<seq<BodyFrame>, CasterError>)

  const UserAgent: string := "NTRIP GpsCorrect/1.0"

  /** The reply line of an NTRIP 1.0 caster, "ICY 200 OK" and an empty line. */
  const IcyReply: seq<byte> := [73, 67, 89, 32, 50, 48, 48, 32, 79, 75, 13, 10, 13, 10]

  /** The number of leading body bytes compared with the ICY reply. */
  const IcyReplyLength: nat := 14

  /** The bytes of `IcyReply` are the ASCII text of the reply line. */
  lemma IcyReplyIsText()
    ensures IcyReply == AsciiBytes("ICY 200 OK\r\n\r\n")
    ensures |IcyReply| == IcyReplyLength
  {
    var text := "ICY 200 OK\r\n\r\n";
    assert |text| == 14;
    assert forall i :: 0 <= i < 14 ==> text[i] as int == IcyReply[i] as int;
    assert IsAscii(text);
    var b := AsciiBytes(text);
    assert |b| == 14;
    assert forall i :: 0 <= i < 14 ==> b[i] == IcyReply[i];
  }

  /** A 2xx status (section 15.3 of RFC 9110). */
  predicate IsSuccess(status: StatusCode) {
    200 <= status < 300
  }

  function PortOrDefault(port: Option<Port>): Port {
    match port
    case Some(p) => p
    case None => DefaultPort
  }

  /** The socket address connected to: host, a colon, and the port in decimal. */
  function ConnectAddress(a: Authority): (addr: string)
    ensures |addr| > |a.host| + 1 && addr[..|a.host|] == a.host && addr[|a.host|] == ':'
    ensures IsDigits(addr[|a.host| + 1..])
  {
    var digits := Decimal(PortOrDefault(a.port));
    assert (a.host + ":" + digits)[|a.host| + 1..] == digits;
    a.host + ":" + digits
  }

  /**
   * The address splits at its last colon into the host and the port, which
   * reads back as the URI's port or 80 when it has none.
   */
  lemma AddressSplitsAtLastColon(a: Authority)
    ensures var addr := ConnectAddress(a);
      var h := |a.host|;
      h < |addr| && addr[..h] == a.host && addr[h] == ':'
      && (forall i :: h < i < |addr| ==> addr[i] != ':')
      && IsDigits(addr[h + 1..])
      && ParseDecimal(addr[h + 1..]) == PortOrDefault(a.port)
  {
    var addr := ConnectAddress(a);
    var h := |a.host|;
    var digits := Decimal(PortOrDefault(a.port));
    assert addr[h + 1..] == digits;
    DecimalRoundTrip(PortOrDefault(a.port));
  }

  /** The values of the header fields named `name`, in order. */
  function HeaderValues(headers: seq<Header>, name: string): (vs: seq<string>)
    ensures |vs| <= |headers|
  {
    if headers == [] then []
    else (if headers[0].name == name then [headers[0].value] else []) + HeaderValues(headers[1..], name)
  }

  /** The GET request for the mountpoint. */
  function BuildRequest(uri: Uri): (req: Request)
    requires uri.authority.Some?
    ensures req.verb == "GET" && req.version == "HTTP/1.1" && req.target == uri && req.body == []
    ensures HeaderValues(req.headers, "host") == [uri.authority.value.text]
    ensures HeaderValues(req.headers, "user-agent") == [UserAgent]
    ensures |req.headers| == 2
  {
    Request("GET", uri, "HTTP/1.1",
      [Header("host", uri.authority.value.text), Header("user-agent", UserAgent)], [])
  }

  /**
   * The decision on the caster's reply. A non-2xx status fails. Otherwise
   * the first body frame, when it carries data, must begin with the ICY
   * reply; it is consumed whatever it is, and the correction body is what
   * follows it.
   */
  function Handshake(status: StatusCode, body: seq<BodyFrame>): (r: Result<seq<BodyFrame>, CasterError>)
    ensures !IsSuccess(status) ==> r == Err(NotSuccess(status))
    ensures r.Ok? <==>
      IsSuccess(status)
      && (body == [] || body[0].Trailers? || (body[0].Data? && IcyReply <= body[0].payload))
    ensures r.Ok? ==> r.value == if body == [] then [] else body[1..]
    ensures r == Err(FirstFrameShort) <==>
      IsSuccess(status) && body != [] && body[0].Data? && |body[0].payload| < IcyReplyLength
  {
    if !IsSuccess(status) then Err(NotSuccess(status))
    else if body == [] then Ok([])
    else
      match body[0]
      case FrameError => Err(FirstFrameFailed)
      case Trailers => Ok(body[1..])
      case Data(chunk) =>
        if |chunk| < IcyReplyLength then Err(FirstFrameShort)
        else if chunk[..IcyReplyLength] != IcyReply then Err(NoIcyPreamble)
        else Ok(body[1..])
  }

  /**
   * One connection attempt to the caster. A scheme other than "http" is
   * rejected before any connection; otherwise the client connects to the
   * authority's host and port, sends the GET request, and decides on the reply.
   */
  function NtripFix(uri: Uri, reply: Reply): (s: Session)
    requires uri.scheme == Some("http") ==> uri.authority.Some?
    ensures s.address.None? <==> uri.scheme != Some("http")
    ensures s.address.None? ==> s.request.None? && s.result == Err(SchemeNotHttp)
    ensures s.address.Some? ==> s.address.value == ConnectAddress(uri.authority.value)
    ensures s.request.Some? <==> uri.scheme == Some("http") && (reply.SendFailed? || reply.Response?)
    ensures s.request.Some? ==> s.request.value == BuildRequest(uri)
    ensures uri.scheme == Some("http") && reply.Refused? ==> s.result == Err(CannotConnect)
    ensures uri.scheme == Some("http") && (reply.HandshakeFailed? || reply.SendFailed?) ==> s.result == Err(TransportFailed)
    ensures s.result.Ok? <==> uri.scheme == Some("http") && reply.Response? && Handshake(reply.status, reply.body).Ok?
    ensures s.result.Ok? ==> s.result == Handshake(reply.status, reply.body)
  {
    if uri.scheme != Some("http") then Session(None, None, Err(SchemeNotHttp))
    else
      var address := ConnectAddress(uri.authority.value);
      match reply
      case Refused => Session(Some(address), None, Err(CannotConnect))
      case HandshakeFailed => Session(Some(address), None, Err(TransportFailed))
      case SendFailed => Session(Some(address), Some(BuildRequest(uri)), Err(TransportFailed))
      case Response(status, body) => Session(Some(address), Some(BuildRequest(uri)), Handshake(status, body))
  }

  /** An NTRIP 1.0 caster's reply line alone in the first frame opens the stream of the frames after it. */
  lemma IcyReplyAccepted(rest: seq<BodyFrame>)
    ensures Handshake(200, [Data(IcyReply)] + rest) == Ok(rest)
  {
    assert ([Data(IcyReply)] + rest)[1..] == rest;
  }
}

/**
 * The `/forward` handler: the ordered checks on a request, the calls it
 * makes on a NAT-PMP client, and the reply it builds.
 *
 * The `natpmp` client is not modelled; each of its three calls contributes
 * only its outcome, supplied as `ClientOutcomes`. What the handler asks of
 * the client is recorded, in order, as a trace of `ClientCall`s.
 */
module Forward {
  import opened Types
  import opened Text
  import opened Authorization
  import opened Duration
  import opened ProtocolParse

  datatype Ipv4Addr = Ipv4Addr(a: u8, b: u8, c: u8, d: u8)
  datatype IpAddr = V4(v4: Ipv4Addr) | V6(segments: seq<u16>)

  /** `AppState`: the configured gateway, duration limit and token. */
  datatype AppState = AppState(gateway: IpAddr, maxDuration: Option<u32>, token: Option<string>)

  /** `ForwardRequest`: the JSON body of a `/forward` call. */
  datatype ForwardRequest = ForwardRequest(internalPort: u16, protocol: string, duration: u32)

  /** `ForwardResponse`: the JSON body of a successful reply. */
  datatype ForwardResponse = ForwardResponse(internalPort: u16, externalPort: u16, protocol: string, duration: u32)

  /** An error reply: HTTP status code and the `error` text. */
  datatype ErrorReply = ErrorReply(status: nat, message: string)

  datatype Reply = Ok(response: ForwardResponse) | Err(error: ErrorReply)

  const Unauthorized := ErrorReply(401, "Unauthorized")
  const Ipv6Unsupported := ErrorReply(500, "IPv6 gateways not supported")
  const ClientCreationFailed := ErrorReply(500, "Failed to create NAT-PMP client")
  const BadProtocol := ErrorReply(400, "protocol must be tcp or udp")
  const SendFailed := ErrorReply(500, "Failed to send port mapping request")
  const UnexpectedResponse := ErrorReply(500, "Unexpected response type")
  const ReadFailed := ErrorReply(500, "Failed to read port mapping response")

  /** The arguments of `send_port_mapping_request`. */
  datatype MappingRequest = MappingRequest(protocol: Protocol, privatePort: u16, publicPort: u16, lifetime: u32)

  /** A mapping response from the gateway: the port it opened and the lifetime it granted. */
  datatype MappingResponse = MappingResponse(privatePort: u16, publicPort: u16, lifetime: u32, epoch: u32)

  /** `natpmp::Response`. */
  datatype Response =
    | Gateway(epoch: u32, publicAddress: Ipv4Addr)
    | UdpMapping(udp: MappingResponse)
    | TcpMapping(tcp: MappingResponse)

  /** What the handler asks of the NAT-PMP client. */
  datatype ClientCall =
    | NewWith(gateway: Ipv4Addr)
    | SendPortMappingRequest(request: MappingRequest)
    | ReadResponseOrRetry

  /**
   * The outcome of each client call: whether `Natpmp::new_with` and
   * `send_port_mapping_request` succeed, and what `read_response_or_retry`
   * returns (`None` for an error).
   */
  datatype ClientOutcomes = ClientOutcomes(created: bool, sent: bool, response: Option<Response>)

  /** Every check before sending has passed: the condition under which the mapping request is sent. */
  predicate ChecksPass(state: AppState, headers: HeaderMap, payload: ForwardRequest, client: ClientOutcomes) {
    && CheckAuthorization(headers, state.token)
    && state.gateway.V4?
    && client.created
    && ParseProtocol(payload.protocol).Some?
  }

  /**
   * `forward`: authorize, clamp the duration, insist on an IPv4 gateway,
   * create the client, parse the protocol, send the mapping request, then
   * read the response; the first step that fails decides the reply.
   * `calls` lists the client calls made, in order.
   */
  method Forward(state: AppState, headers: HeaderMap, payload: ForwardRequest, client: ClientOutcomes)
    returns (reply: Reply, calls: seq<ClientCall>)
    // the checks, in order, and the client calls each failure leaves behind
    ensures !CheckAuthorization(headers, state.token) ==> reply == Err(Unauthorized) && calls == []
    ensures CheckAuthorization(headers, state.token) && state.gateway.V6? ==>
              reply == Err(Ipv6Unsupported) && calls == []
    ensures CheckAuthorization(headers, state.token) && state.gateway.V4? ==>
              |calls| >= 1 && calls[0] == NewWith(state.gateway.v4)
    ensures CheckAuthorization(headers, state.token) && state.gateway.V4? && !client.created ==>
              reply == Err(ClientCreationFailed) && |calls| == 1
    ensures CheckAuthorization(headers, state.token) && state.gateway.V4? && client.created &&
            ParseProtocol(payload.protocol).None? ==>
              reply == Err(BadProtocol) && |calls| == 1
    // a mapping request is sent exactly when every check passes, and it is this one
    ensures |calls| >= 2 <==> ChecksPass(state, headers, payload, client)
    ensures |calls| >= 2 ==>
              calls[1] == SendPortMappingRequest(MappingRequest(ParseProtocol(payload.protocol).value,
                                                                payload.internalPort, 0,
                                                                ClampDuration(payload.duration, state.maxDuration)))
    // what happens after sending
    ensures ChecksPass(state, headers, payload, client) && !client.sent ==> reply == Err(SendFailed) && |calls| == 2
    ensures ChecksPass(state, headers, payload, client) && client.sent ==>
              |calls| == 3 && calls[2] == ReadResponseOrRetry
    ensures ChecksPass(state, headers, payload, client) && client.sent && client.response.None? ==>
              reply == Err(ReadFailed)
    ensures ChecksPass(state, headers, payload, client) && client.sent &&
            client.response.Some? && client.response.value.Gateway? ==>
              reply == Err(UnexpectedResponse)
    // success and what it reports
    ensures reply.Ok? <==>
              ChecksPass(state, headers, payload, client) && client.sent &&
              client.response.Some? && !client.response.value.Gateway?
    ensures reply.Ok? ==>
              var mapping := if client.response.value.UdpMapping? then client.response.value.udp
                             else client.response.value.tcp;
              reply.response == ForwardResponse(payload.internalPort, mapping.publicPort,
                                                ProtocolName(ParseProtocol(payload.protocol).value),
                                                ClampDuration(payload.duration, state.maxDuration))
  {
    calls := [];
    if !CheckAuthorization(headers, state.token) {
      return Err(Unauthorized), calls;
    }

    var duration := ClampDuration(payload.duration, state.maxDuration);

    if state.gateway.V6? {
      return Err(Ipv6Unsupported), calls;
    }
    var gatewayV4 := state.gateway.v4;

    calls := calls + [NewWith(gatewayV4)];
    if !client.created {
      return Err(ClientCreationFailed), calls;
    }

    var protocol;
    match ParseProtocol(payload.protocol) {
      case Some(p) => protocol := p;
      case None => return Err(BadProtocol), calls;
    }

    calls := calls + [SendPortMappingRequest(MappingRequest(protocol, payload.internalPort, 0, duration))];
    if !client.sent {
      return Err(SendFailed), calls;
    }

    calls := calls + [ReadResponseOrRetry];
    match client.response {
      case None =>
        reply := Err(ReadFailed);
      case Some(response) =>
        var externalPort;
        match response {
          case UdpMapping(ur) => externalPort := ur.publicPort;
          case TcpMapping(tr) => externalPort := tr.publicPort;
          case Gateway(_, _) => return Err(UnexpectedResponse), calls;
        }
        reply := Ok(ForwardResponse(payload.internalPort, externalPort, ToLower(payload.protocol), duration));
    }
  }
}

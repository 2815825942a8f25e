# natpmp-server `/forward` request pipeline, in Dafny

natpmp-server is a small HTTP service that asks a NAT-PMP gateway (typically a
VPN endpoint) to open external port mappings on behalf of its callers. This
project models the part of `src/main.rs` that decides what happens to one
`POST /forward` request:

- the bearer-token check `check_authorization` (module `Authorization`),
  including the two `http` crate behaviours it depends on: `HeaderMap::get`
  returns the first header with the given name, and `HeaderValue::to_str`
  succeeds only when every byte is visible ASCII or a tab;
- the conversion of the configured `max_duration` (an `i32`, `-1` meaning "no
  limit") into an optional `u32` limit, and the clamp of the requested duration
  to it (module `Duration`);
- the case-insensitive parsing of the `protocol` field into TCP or UDP
  (modules `Text` and `ProtocolParse`);
- the handler `forward` itself (module `Forward`): a method that runs the
  checks in the source's order and returns the reply together with the trace
  of calls it made on the NAT-PMP client.

The `natpmp` crate is not part of this model. Its three operations
(`Natpmp::new_with`, `send_port_mapping_request`, `read_response_or_retry`)
are represented only by their outcomes, given to `Forward.Forward` as a
`ClientOutcomes` value: whether the first two succeed, and which response (a
gateway-address response, or a UDP or TCP mapping response with its public port
and lifetime) the third returns, if any. The request handed to
`send_port_mapping_request` is observable in the returned call trace.

Facts the model makes explicit:

- with a token configured, only the first `authorization` header is consulted,
  the scheme `Bearer` is case-sensitive, and a token containing a character
  that `HeaderValue::to_str` never yields (a control character other than tab,
  DEL, or any non-ASCII character) can never be matched, so every request is
  refused: the header may carry such bytes, but `to_str` then fails;
- a `max_duration` below `-1` is reinterpreted as an unsigned value of at
  least 2^31, so it caps nothing below 2^31 seconds;
- the NAT-PMP client is created before the protocol is parsed, so a request
  with a bad protocol still makes the `new_with` call;
- the reply's `duration` is the clamped request, never the lifetime the
  gateway granted, and a mapping response of either protocol is accepted,
  whichever protocol was requested.

## Model

| member | source | states |
|---|---|---|
| `Text.ToLower` | src/main.rs:144 | the result has the input's length, each character is that input character lowercased, and no ASCII upper-case letter remains |
| `Authorization.FirstIndex` | src/main.rs:78 | the index found is the first header whose name is `authorization` (case-insensitively), or the header count when none is |
| `Authorization.CheckAuthorization` | src/main.rs:74-86 | with no token every request passes; a passing request with a token has an `authorization` header whose length is that of `Bearer ` plus the token |
| `Authorization.Get` | src/main.rs:78 | `None` exactly when no header has the looked-up name (`authorization` here), compared case-insensitively; otherwise the value of the first header with that name |
| `Authorization.ToStr` | src/main.rs:79 | succeeds exactly when every byte is visible ASCII or tab, and then the text has one character per byte with that byte's code |
| `Authorization.SpellsIsToStr` | src/main.rs:79-80 | a header value reads as a given text exactly when every byte is visible ASCII or tab and the bytes are that text's characters |
| `Authorization.CheckAuthorizationWithToken` | src/main.rs:77-84 | with a token, a request passes if and only if the first `authorization` header exists, reads as text, and equals `Bearer ` followed by the token |
| `Authorization.FirstIndexOfPrefix` | src/main.rs:78 | appending headers after an `authorization` header does not move the first match |
| `Authorization.LaterHeadersIgnored` | src/main.rs:78-80 | once an `authorization` header is present, headers after it never change the verdict |
| `Authorization.BearerValue` | src/main.rs:80 | the header value built for a token spells `Bearer ` followed by the token in bytes that `to_str` accepts |
| `Authorization.BearerValueAuthorizes` | src/main.rs:77-81 | a client sending `Bearer <token>` as its first `authorization` header is authorized, whatever non-authorization headers precede it and whatever headers follow it |
| `Authorization.UnspellableTokenRejectsAll` | src/main.rs:79-83 | a token with a character outside tab and visible ASCII, which `to_str` never yields, rejects every request |
| `Authorization.LowercaseSchemeRejected` | src/main.rs:80 | an `authorization` header starting with lower-case `b` (such as `bearer <token>`) is refused |
| `Duration.AsU32` | src/main.rs:243 | `as u32` keeps the value modulo 2^32 |
| `Duration.MaxDurationLimit` | src/main.rs:240-244 | no limit exactly for `-1`; a non-negative value is the limit itself; any other negative value `v` becomes `v + 2^32`, which is at least 2^31 |
| `Duration.MaxDurationLimitRoundTrip` | src/main.rs:240-244 | the configured value is recovered from the limit by the inverse reinterpretation, so no two settings give the same limit |
| `Duration.ClampDuration` | src/main.rs:111-114 | the duration is at most the request and at most the limit, and equals one of them; with no limit it is the request |
| `Duration.ClampIsGreatestWithinBounds` | src/main.rs:112 | every value within both the request and the limit is at most the clamped duration, so the clamp is their minimum |
| `Duration.ConfiguredClamp` | src/main.rs:111-114 | from the configuration: a non-negative setting gives the minimum of request and setting, `-1` the request, other negatives leave requests below 2^31 unchanged |
| `ProtocolParse.ParseProtocol` | src/main.rs:144-155 | a parsed protocol's name is the lowercased input; the parse fails exactly when the lowercased input is neither `tcp` nor `udp` |
| `ProtocolParse.ParseProtocolName` | src/main.rs:144-146 | `tcp`/`udp` and `TCP`/`UDP` parse back to their protocol |
| `ProtocolParse.ToLowerIsWord` | src/main.rs:144 | lowercasing gives a lower-case word exactly when each input character is that letter in either case |
| `ProtocolParse.AcceptedSpellings` | src/main.rs:144-155 | TCP is accepted exactly for the eight case variants of `tcp`, UDP exactly for those of `udp` |
| `Forward.Forward` | src/main.rs:95-218 | replies 401, then 500 for an IPv6 gateway, then 500 if the client cannot be created, then 400 for a bad protocol, with no mapping request sent in any of these; the request sent, exactly when all checks pass, has the parsed protocol, the internal port, external port 0 and the clamped duration; a send failure, read failure or gateway-address response each give their 500; success echoes the internal port, the mapping's public port, `tcp` or `udp`, and the clamped duration |

## Left out

- `health` (src/main.rs:88-93): it only reads the wall clock and formats it as text.
- `main` apart from the `max_duration` conversion: argument parsing, logging setup, binding the listener, the router and signal-driven shutdown are framework plumbing.
- The `natpmp` crate (socket creation, the NAT-PMP byte layout, retransmission inside `read_response_or_retry`) is not part of this model; its calls appear only as outcomes supplied to `Forward.Forward`.
- The 250 ms sleep between sending and reading, and the asynchronous execution of the handler: the wait gives the gateway time to answer before the single read; whatever effect it has is covered by leaving the read outcome free in `ClientOutcomes`, where a `None` response stands for a read that found nothing or failed.
- JSON extraction and serialisation and the `info!`/`error!` logging: a body that does not deserialise never reaches `forward`.
- Text.ToLower: lowercases ASCII letters only, while Rust's `to_lowercase` is Unicode-aware. No character outside ASCII lowercases to `t`, `c`, `p`, `u` or `d`, so the accepted protocols and the echoed protocol text are the same.
- The header map is a sequence of (name, value) pairs; the `http` crate's internal hashing is not modelled, only the first-value-for-a-name behaviour of `get`.

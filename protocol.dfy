/** The transport protocol named in a `/forward` request, and how its text is parsed. */
module ProtocolParse {
  import opened Types
  import opened Text

  /** `natpmp::Protocol`. */
  datatype Protocol = Tcp | Udp

  /** The lowercase spelling the handler matches against and echoes back. */
  function ProtocolName(p: Protocol): string {
    match p
    case Tcp => "tcp"
    case Udp => "udp"
  }

  /** The `match` on `payload.protocol.to_lowercase()`; `None` is the 400 reply. */
  function ParseProtocol(s: string): (r: Option<Protocol>)
    ensures r.Some? ==> ToLower(s) == ProtocolName(r.value)
    ensures r.None? <==> ToLower(s) != "tcp" && ToLower(s) != "udp"
  {
    var lower := ToLower(s);
    if lower == "tcp" then Some(Tcp)
    else if lower == "udp" then Some(Udp)
    else None
  }

  /** Parsing a protocol's own name, in either case, gives that protocol back. */
  lemma ParseProtocolName(p: Protocol)
    ensures ParseProtocol(ProtocolName(p)) == Some(p)
    ensures ParseProtocol(if p == Tcp then "TCP" else "UDP") == Some(p)
  {
    assert ToLower(ProtocolName(p)) == ProtocolName(p);
    assert ToLower(if p == Tcp then "TCP" else "UDP") == ProtocolName(p);
  }

  /** Lowercasing yields `lower` exactly when each character is that letter in either case. */
  lemma ToLowerIsWord(s: string, lower: string)
    requires forall i :: 0 <= i < |lower| ==> 'a' <= lower[i] <= 'z'
    ensures ToLower(s) == lower <==>
              |s| == |lower| &&
              forall i :: 0 <= i < |s| ==> s[i] == lower[i] || s[i] as int == lower[i] as int - 32
  {
    forall i | 0 <= i < |s| && i < |lower|
      ensures AsciiLower(s[i]) == lower[i] <==> s[i] == lower[i] || s[i] as int == lower[i] as int - 32
    {
      LowerCharIs(s[i], lower[i]);
    }
    if |s| == |lower| {
      if forall i :: 0 <= i < |s| ==> AsciiLower(s[i]) == lower[i] {
        assert ToLower(s) == lower;
      }
    }
  }

  lemma LowerCharIs(c: char, l: char)
    requires 'a' <= l <= 'z'
    ensures AsciiLower(c) == l <==> c == l || c as int == l as int - 32
  {
  }

  /**
   * The accepted spellings: `tcp` and `udp` in any mix of upper and lower
   * case, and nothing else.
   */
  lemma AcceptedSpellings(s: string)
    ensures ParseProtocol(s) == Some(Tcp) <==>
              |s| == 3 && s[0] in "tT" && s[1] in "cC" && s[2] in "pP"
    ensures ParseProtocol(s) == Some(Udp) <==>
              |s| == 3 && s[0] in "uU" && s[1] in "dD" && s[2] in "pP"
  {
    ToLowerIsWord(s, "tcp");
    ToLowerIsWord(s, "udp");
  }
}

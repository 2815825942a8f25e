/**
 * The bearer-token check that guards the `/forward` endpoint
 * (`check_authorization` in src/main.rs), together with the two pieces of
 * the `http` crate it relies on: looking a header up by name and reading a
 * header value as text.
 */
module Authorization {
  import opened Types
  import opened Text

  /** One request header as received: its name and its raw value bytes. */
  datatype Header = Header(name: string, value: seq<u8>)

  /** `http::HeaderMap`: the request's headers in arrival order; a name may repeat. */
  type HeaderMap = seq<Header>

  const AuthorizationName: string := "authorization"
  const BearerPrefix: string := "Bearer "

  /** Header names are case-insensitive; the map stores them lowercased. */
  predicate NameMatches(name: string, wanted: string) {
    ToLower(name) == wanted
  }

  /**
   * Position of the first header called `wanted`, or `|headers|` when there
   * is none.
   */
  function FirstIndex(headers: HeaderMap, wanted: string): (k: nat)
    ensures k <= |headers|
    ensures forall j :: 0 <= j < k ==> !NameMatches(headers[j].name, wanted)
    ensures k < |headers| ==> NameMatches(headers[k].name, wanted)
  {
    if headers == [] then 0
    else if NameMatches(headers[0].name, wanted) then 0
    else 1 + FirstIndex(headers[1..], wanted)
  }

  /** `HeaderMap::get`: the value of the first header called `wanted`. */
  function Get(headers: HeaderMap, wanted: string): (r: Option<seq<u8>>)
    ensures r.None? <==> forall j :: 0 <= j < |headers| ==> !NameMatches(headers[j].name, wanted)
    ensures r.Some? ==> r.value == headers[FirstIndex(headers, wanted)].value
  {
    var k := FirstIndex(headers, wanted);
    if k < |headers| then Some(headers[k].value) else None
  }

  /** Bytes that `HeaderValue::to_str` accepts: visible ASCII and horizontal tab. */
  predicate IsVisibleAscii(b: u8) {
    (32 <= b < 127) || b == 9
  }

  /** The character a single accepted byte stands for. */
  function ByteChar(b: u8): char {
    b as int as char
  }

  /**
   * `HeaderValue::to_str`: the value as text when every byte is accepted,
   * otherwise an error (`None`).
   */
  function ToStr(value: seq<u8>): (r: Option<string>)
    ensures r.Some? <==> forall i :: 0 <= i < |value| ==> IsVisibleAscii(value[i])
    ensures r.Some? ==> |r.value| == |value| && forall i :: 0 <= i < |value| ==> r.value[i] as int == value[i] as int
  {
    if forall i | 0 <= i < |value| :: IsVisibleAscii(value[i])
    then Some(seq(|value|, i requires 0 <= i < |value| => ByteChar(value[i])))
    else None
  }

  /**
   * `check_authorization`: with no token configured every request passes;
   * otherwise the first `authorization` header must read as text and equal
   * `"Bearer "` followed by the token, exactly.
   */
  function CheckAuthorization(headers: HeaderMap, expected: Option<string>): (ok: bool)
    ensures expected.None? ==> ok
    ensures ok && expected.Some? ==>
              Get(headers, AuthorizationName).Some? &&
              |Get(headers, AuthorizationName).value| == |BearerPrefix| + |expected.value|
  {
    match expected
    case None => true
    case Some(token) =>
      match Get(headers, AuthorizationName)
      case None => false
      case Some(value) =>
        match ToStr(value)
        case None => false
        case Some(text) => text == BearerPrefix + token
  }

  /** `value`, byte by byte, is the text `t`, and every byte is one `to_str` accepts. */
  predicate Spells(value: seq<u8>, t: string) {
    && |value| == |t|
    && forall i :: 0 <= i < |value| ==> IsVisibleAscii(value[i]) && value[i] as int == t[i] as int
  }

  /** The header value a client sends to present `token`. */
  function BearerValue(token: string): (value: seq<u8>)
    requires forall i :: 0 <= i < |token| ==> token[i] == '\t' || ' ' <= token[i] <= '~'
    ensures Spells(value, BearerPrefix + token)
  {
    var t := BearerPrefix + token;
    seq(|t|, i requires 0 <= i < |t| => t[i] as int as u8)
  }

  lemma SpellsIsToStr(value: seq<u8>, t: string)
    ensures Spells(value, t) <==> ToStr(value) == Some(t)
  {
    if ToStr(value) == Some(t) {
      forall i | 0 <= i < |value|
        ensures IsVisibleAscii(value[i]) && value[i] as int == t[i] as int
      {
        assert t[i] == ByteChar(value[i]);
      }
    }
    if Spells(value, t) {
      var s := seq(|value|, i requires 0 <= i < |value| => ByteChar(value[i]));
      assert s == t;
    }
  }

  /**
   * With a token configured, a request is authorized exactly when some
   * header is named `authorization`, no earlier header is, and that header's
   * bytes spell `Bearer <token>` in accepted characters.
   */
  lemma CheckAuthorizationWithToken(headers: HeaderMap, token: string)
    ensures CheckAuthorization(headers, Some(token)) <==>
              exists k :: 0 <= k < |headers| &&
                          NameMatches(headers[k].name, AuthorizationName) &&
                          (forall j :: 0 <= j < k ==> !NameMatches(headers[j].name, AuthorizationName)) &&
                          Spells(headers[k].value, BearerPrefix + token)
  {
    var k := FirstIndex(headers, AuthorizationName);
    if k < |headers| {
      SpellsIsToStr(headers[k].value, BearerPrefix + token);
      forall k' | 0 <= k' < |headers| &&
                  NameMatches(headers[k'].name, AuthorizationName) &&
                  (forall j :: 0 <= j < k' ==> !NameMatches(headers[j].name, AuthorizationName))
        ensures k' == k
      {
      }
    }
  }

  /** Only the first `authorization` header is consulted: later headers change nothing. */
  lemma {:induction false} LaterHeadersIgnored(headers: HeaderMap, later: HeaderMap, token: Option<string>)
    requires exists k :: 0 <= k < |headers| && NameMatches(headers[k].name, AuthorizationName)
    ensures CheckAuthorization(headers + later, token) == CheckAuthorization(headers, token)
  {
    FirstIndexOfPrefix(headers, later, AuthorizationName);
  }

  lemma {:induction false} FirstIndexOfPrefix(headers: HeaderMap, later: HeaderMap, wanted: string)
    requires exists k :: 0 <= k < |headers| && NameMatches(headers[k].name, wanted)
    ensures FirstIndex(headers + later, wanted) == FirstIndex(headers, wanted) < |headers|
  {
    if !NameMatches(headers[0].name, wanted) {
      var k :| 0 <= k < |headers| && NameMatches(headers[k].name, wanted);
      assert NameMatches(headers[1..][k - 1].name, wanted);
      assert (headers + later)[1..] == headers[1..] + later;
      FirstIndexOfPrefix(headers[1..], later, wanted);
    }
  }

  /**
   * A client whose first authorization header is `Bearer <token>` is let in,
   * whatever headers come before (none named `authorization`) or after it.
   */
  lemma BearerValueAuthorizes(others: HeaderMap, name: string, token: string, later: HeaderMap)
    requires forall i :: 0 <= i < |token| ==> token[i] == '\t' || ' ' <= token[i] <= '~'
    requires forall j :: 0 <= j < |others| ==> !NameMatches(others[j].name, AuthorizationName)
    requires NameMatches(name, AuthorizationName)
    ensures CheckAuthorization(others + [Header(name, BearerValue(token))] + later, Some(token))
  {
    var headers := others + [Header(name, BearerValue(token))];
    assert headers[|others|] == Header(name, BearerValue(token));
    CheckAuthorizationWithToken(headers, token);
    LaterHeadersIgnored(headers, later, Some(token));
  }

  /**
   * A token holding a character that no header byte accepted by `to_str` can spell
   * (a control character other than tab, DEL, or anything beyond ASCII)
   * locks every client out.
   */
  lemma UnspellableTokenRejectsAll(headers: HeaderMap, token: string, i: nat)
    requires i < |token| && !(token[i] == '\t' || ' ' <= token[i] <= '~')
    ensures !CheckAuthorization(headers, Some(token))
  {
    CheckAuthorizationWithToken(headers, token);
    assert (BearerPrefix + token)[|BearerPrefix| + i] == token[i];
  }

  /** The scheme is compared case-sensitively: `bearer <token>` is refused. */
  lemma LowercaseSchemeRejected(headers: HeaderMap, token: string)
    requires Get(headers, AuthorizationName).Some?
    requires |Get(headers, AuthorizationName).value| > 0 && Get(headers, AuthorizationName).value[0] == 'b' as int as u8
    ensures !CheckAuthorization(headers, Some(token))
  {
    var value := Get(headers, AuthorizationName).value;
    if ToStr(value).Some? {
      assert ToStr(value).value[0] == 'b';
      assert (BearerPrefix + token)[0] == 'B';
    }
  }
}

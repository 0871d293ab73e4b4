/**
 * Host-secret extraction: the host proves who it is either with a dedicated
 * header (by default `X-Host-Secret`) or with an `Authorization: Bearer` header.
 */
module Auth {
  import opened Options
  import opened JsString

  /** A request header value, as typed `string | string[]`: one string, or a list of strings. */
  datatype HeaderValue = Text(text: string) | List(items: seq<string>)

  /** Request headers keyed by lower-cased name; a missing key is an absent header. */
  type Headers = map<string, HeaderValue>

  const DefaultHeaderName: string := "X-Host-Secret"
  const AuthorizationKey: string := "authorization"
  const BearerPrefix: string := "Bearer "

  /**
   * The key the secret header is looked up under: the configured name, or
   * `X-Host-Secret` when none is configured, lower-cased.
   */
  function HeaderKey(configured: Option<string>): (k: string)
    ensures configured.Some? ==> |k| == |configured.value|
    ensures configured.Some? ==> forall i :: 0 <= i < |k| ==> k[i] == LowerChar(configured.value[i])
    ensures forall i :: 0 <= i < |k| ==> !('A' <= k[i] <= 'Z')
  {
    match configured
    case Some(name) => ToLower(name)
    case None => ToLower(DefaultHeaderName)
  }

  /** The configured header holds a single string that is not blank. */
  predicate HeaderUsable(headers: Headers, key: string) {
    key in headers && headers[key].Text? && !Blank(headers[key].text)
  }

  /** The `Authorization` header holds a single string that starts with `Bearer ` exactly. */
  predicate HasBearer(headers: Headers) {
    && AuthorizationKey in headers
    && headers[AuthorizationKey].Text?
    && BearerPrefix <= headers[AuthorizationKey].text
  }

  /**
   * `getHostSecret(req)`: the trimmed configured header when it is a non-blank
   * string, otherwise the trimmed remainder of a `Bearer ` authorization,
   * otherwise null. Every secret it returns is trimmed.
   */
  function GetHostSecret(headers: Headers, configured: Option<string>): (r: Option<string>)
    ensures r.Some? ==> IsTrimmed(r.value)
  {
    var key := HeaderKey(configured);
    if key in headers && headers[key].Text? && Trim(headers[key].text) != "" then
      Some(Trim(headers[key].text))
    else if AuthorizationKey in headers && headers[AuthorizationKey].Text?
      && BearerPrefix <= headers[AuthorizationKey].text then
      Some(Trim(headers[AuthorizationKey].text[|BearerPrefix|..]))
    else
      None
  }

  /** Lower-casing `X-Host-Secret`, one letter at a time. */
  lemma {:induction false} LowerOfDefaultName(name: string)
    requires name == "X-Host-Secret"
    ensures ToLower(name) == "x-host-secret"
  {
    var k := ToLower(name);
    assert k[0] == LowerChar('X') == 'x';
    assert k[2] == LowerChar('H') == 'h';
    assert k[7] == LowerChar('S') == 's';
  }

  /** Without configuration the header is looked up as `x-host-secret`. */
  lemma {:induction false} DefaultHeaderKey()
    ensures HeaderKey(None) == "x-host-secret"
  {
    LowerOfDefaultName("X-Host-Secret");
  }

  /** A usable configured header wins: its trimmed value is the secret. */
  lemma {:induction false} HeaderWins(headers: Headers, configured: Option<string>)
    requires HeaderUsable(headers, HeaderKey(configured))
    ensures GetHostSecret(headers, configured) == Some(Trim(headers[HeaderKey(configured)].text))
  {
    assert Trim(headers[HeaderKey(configured)].text) != "";
  }

  /**
   * While the configured header is usable, whatever the `Authorization` header
   * says does not change the secret.
   */
  lemma {:induction false} AuthorizationIgnored(headers: Headers, configured: Option<string>, auth: HeaderValue)
    requires HeaderKey(configured) != AuthorizationKey
    requires HeaderUsable(headers, HeaderKey(configured))
    ensures GetHostSecret(headers[AuthorizationKey := auth], configured) == GetHostSecret(headers, configured)
  {
    var key := HeaderKey(configured);
    var replaced := headers[AuthorizationKey := auth];
    assert key in replaced && replaced[key] == headers[key];
    HeaderWins(replaced, configured);
    HeaderWins(headers, configured);
  }

  /** While the configured header is usable, removing the `Authorization` header does not change the secret. */
  lemma {:induction false} AuthorizationNotNeeded(headers: Headers, configured: Option<string>)
    requires HeaderKey(configured) != AuthorizationKey
    requires HeaderUsable(headers, HeaderKey(configured))
    ensures GetHostSecret(headers - {AuthorizationKey}, configured) == GetHostSecret(headers, configured)
  {
    var key := HeaderKey(configured);
    var removed := headers - {AuthorizationKey};
    assert key in removed && removed[key] == headers[key];
    HeaderWins(removed, configured);
    HeaderWins(headers, configured);
  }

  /**
   * An absent, list-valued or blank configured header falls through to the
   * `Authorization` header: a `Bearer ` value yields its trimmed remainder after
   * seven characters, anything else yields null.
   */
  lemma {:induction false} FallThrough(headers: Headers, configured: Option<string>)
    requires !HeaderUsable(headers, HeaderKey(configured))
    ensures HasBearer(headers) ==>
      GetHostSecret(headers, configured) == Some(Trim(headers[AuthorizationKey].text[7..]))
    ensures !HasBearer(headers) ==> GetHostSecret(headers, configured) == None
  {
  }

  /** The result is null exactly when neither source supplies a secret. */
  lemma {:induction false} NoSecret(headers: Headers, configured: Option<string>)
    ensures GetHostSecret(headers, configured) == None <==>
      !HeaderUsable(headers, HeaderKey(configured)) && !HasBearer(headers)
  {
  }

  /**
   * An empty secret can only come from the `Bearer ` branch: the configured header
   * is unusable and the authorization is `Bearer ` followed by whitespace.
   */
  lemma {:induction false} EmptySecretOnlyFromBearer(headers: Headers, configured: Option<string>)
    requires GetHostSecret(headers, configured) == Some("")
    ensures !HeaderUsable(headers, HeaderKey(configured))
    ensures HasBearer(headers) && Blank(headers[AuthorizationKey].text[7..])
  {
  }

  /** The default key is not the authorization key, so the two sources never collide by default. */
  lemma {:induction false} DefaultKeyIsNotAuthorization()
    ensures HeaderKey(None) != AuthorizationKey
  {
    DefaultHeaderKey();
    assert "x-host-secret"[0] != AuthorizationKey[0];
  }

  /** The prefix match is case-sensitive: `bearer abc` gives nothing. */
  lemma {:induction false} LowerCaseBearerRejected()
    ensures GetHostSecret(map[AuthorizationKey := Text("bearer abc")], None) == None
  {
    DefaultKeyIsNotAuthorization();
    assert "bearer abc"[0] != BearerPrefix[0];
  }

  /**
   * What a client sends is what the server reads back: a trimmed secret sent as
   * `Bearer <secret>` is returned unchanged when the configured header is unusable.
   */
  lemma {:induction false} BearerRoundTrip(headers: Headers, configured: Option<string>, secret: string)
    requires !HeaderUsable(headers, HeaderKey(configured))
    requires AuthorizationKey in headers && headers[AuthorizationKey] == Text(BearerPrefix + secret)
    requires IsTrimmed(secret)
    ensures GetHostSecret(headers, configured) == Some(secret)
  {
    var text := BearerPrefix + secret;
    assert |BearerPrefix| == 7;
    assert text[..7] == BearerPrefix;
    assert HasBearer(headers);
    FallThrough(headers, configured);
    assert text[7..] == secret;
    TrimOfTrimmed(secret);
  }

  /** A non-empty trimmed secret sent in the configured header is returned unchanged. */
  lemma {:induction false} HeaderRoundTrip(headers: Headers, configured: Option<string>, secret: string)
    requires HeaderKey(configured) in headers && headers[HeaderKey(configured)] == Text(secret)
    requires IsTrimmed(secret) && secret != []
    ensures GetHostSecret(headers, configured) == Some(secret)
  {
    TrimOfTrimmed(secret);
  }
}

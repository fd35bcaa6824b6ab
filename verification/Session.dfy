/** Sessions: claims sealed into a token, with an inclusive expiry in epoch milliseconds. */
module Session {
  import opened Prelude
  import opened Jwe

  const DEFAULT_TTL_MS := 1000 * 60 * 60

  datatype IssueOptions = IssueOptions(
    sessionId: Option<string>,
    authenticatedAt: Option<int>,
    authStrength: Option<string>)

  datatype Metadata = Metadata(
    sessionId: string,
    issuedAt: int,
    expiresAt: int,
    authenticatedAt: int,
    authStrength: Option<string>)

  function Ttl(ttlMs: Option<int>): int
  {
    if ttlMs.Some? then ttlMs.value else DEFAULT_TTL_MS
  }

  /** The claims sealed into a session; `uuid` is the fresh id used when none is given. */
  function ClaimsOf(payload: Claims, o: IssueOptions, uuid: string, ttlMs: Option<int>, now: int): Claims
  {
    var c := payload["sid" := Text(if o.sessionId.Some? then o.sessionId.value else uuid)]
                    ["iat" := Number(now)]
                    ["exp" := Number(now + Ttl(ttlMs))]
                    ["authenticatedAtEpochMs" :=
                       Number(if o.authenticatedAt.Some? then o.authenticatedAt.value else now)];
    if o.authStrength.Some? then c["authStrength" := Text(o.authStrength.value)] else c - {"authStrength"}
  }

  function Issue(ring: Keyring, payload: Claims, o: IssueOptions, uuid: string, ttlMs: Option<int>, now: int)
    : Result<Token, Failure>
  {
    Encrypt(ring, ClaimsOf(payload, o, uuid, ttlMs, now))
  }

  /** A non-zero `exp` in the past rejects; issued sessions always carry a number. */
  predicate Expired(c: Claims, now: int)
  {
    "exp" in c && c["exp"].Number? && c["exp"].n != 0 && now > c["exp"].n
  }

  function Read(ring: Keyring, token: Token, now: int): Result<Claims, Failure>
  {
    match Decrypted(ring, token)
    case Err(e) => Err(e)
    case Ok(c) => if Expired(c, now) then Err(SessionExpired) else Ok(c)
  }

  function ReadMetadata(ring: Keyring, token: Token, now: int): Result<Metadata, Failure>
  {
    match Read(ring, token, now)
    case Err(e) => Err(e)
    case Ok(c) =>
      if !("sid" in c && c["sid"].Text? && "iat" in c && c["iat"].Number? && "exp" in c && c["exp"].Number?) then
        Err(InvalidMetadata)
      else
        Ok(Metadata(
          c["sid"].s,
          c["iat"].n,
          c["exp"].n,
          if "authenticatedAtEpochMs" in c && c["authenticatedAtEpochMs"].Number? then
            c["authenticatedAtEpochMs"].n
          else c["iat"].n,
          if "authStrength" in c && c["authStrength"].Text? then Some(c["authStrength"].s) else None))
  }

  /** A session can be read at `now`: up to and including its expiry, and for ever if that is 0. */
  predicate Current(exp: int, now: int)
  {
    exp == 0 || now <= exp
  }

  /**
   * The metadata of an issued session, read on any ring that holds the issuer's active key, is
   * what was asked for, whatever the payload itself contains, until the expiry has passed.
   */
  lemma MetadataRoundTrip(issuer: Keyring, reader: Keyring, payload: Claims, o: IssueOptions,
                          uuid: string, ttlMs: Option<int>, issued: int, now: int)
    requires issuer.keys != [] && reader.Holds(issuer.keys[0].material)
    ensures Issue(issuer, payload, o, uuid, ttlMs, issued).Ok?
    ensures
      var token := Issue(issuer, payload, o, uuid, ttlMs, issued).value;
      ReadMetadata(reader, token, now) ==
        if Current(issued + Ttl(ttlMs), now) then
          Ok(Metadata(
            if o.sessionId.Some? then o.sessionId.value else uuid,
            issued,
            issued + (if ttlMs.Some? then ttlMs.value else 3600000),
            if o.authenticatedAt.Some? then o.authenticatedAt.value else issued,
            o.authStrength))
        else Err(SessionExpired)
  {}

  /**
   * What any token that opens says about its session, by the fields it holds: expired when its
   * number `exp` is past and not 0; otherwise invalid when the id, the issue time or the expiry
   * is missing or of the wrong kind; otherwise just these fields, with the issue time for a missing
   * time of authentication.
   */
  lemma MetadataIsExact(reader: Keyring, token: Token, now: int)
    requires token.Sealed? && token.content.Some? && reader.Holds(token.material)
    ensures
      var c, r := token.content.value, ReadMetadata(reader, token, now);
      var expired := exists t :: "exp" in c && c["exp"] == Number(t) && t != 0 && now > t;
      var complete := "sid" in c && c["sid"].Text? && "iat" in c && c["iat"].Number? && "exp" in c && c["exp"].Number?;
      && (r == Err(SessionExpired) <==> expired)
      && (r == Err(InvalidMetadata) <==> !expired && !complete)
      && (r.Ok? <==> !expired && complete)
      && (r.Ok? ==>
            var m := r.value;
            && c["sid"] == Text(m.sessionId) && c["iat"] == Number(m.issuedAt) && c["exp"] == Number(m.expiresAt)
            && (if "authenticatedAtEpochMs" in c && c["authenticatedAtEpochMs"].Number? then
                  c["authenticatedAtEpochMs"] == Number(m.authenticatedAt)
                else m.authenticatedAt == m.issuedAt)
            && (if "authStrength" in c && c["authStrength"].Text? then
                  m.authStrength.Some? && c["authStrength"] == Text(m.authStrength.value)
                else m.authStrength == None))
  {
    var c := token.content.value;
    assert reader.keys != [] && Decrypted(reader, token) == Ok(c);
    if "exp" in c && c["exp"].Number? {
      assert c["exp"] == Number(c["exp"].n);
    }
  }

  /** Everything in the payload under another name comes back unchanged. */
  lemma PayloadRoundTrip(issuer: Keyring, reader: Keyring, payload: Claims, o: IssueOptions,
                         uuid: string, ttlMs: Option<int>, issued: int, now: int, name: string)
    requires issuer.keys != [] && reader.Holds(issuer.keys[0].material) && Current(issued + Ttl(ttlMs), now)
    requires name !in {"sid", "iat", "exp", "authenticatedAtEpochMs", "authStrength"}
    ensures Issue(issuer, payload, o, uuid, ttlMs, issued).Ok?
    ensures
      var back := Read(reader, Issue(issuer, payload, o, uuid, ttlMs, issued).value, now);
      && back.Ok?
      && (name in back.value <==> name in payload)
      && (name in payload ==> back.value[name] == payload[name])
  {}

  /** Past its expiry a session is rejected, unless the expiry is the one instant read as "none". */
  lemma ExpiryIsFinal(issuer: Keyring, reader: Keyring, payload: Claims, o: IssueOptions,
                      uuid: string, ttlMs: Option<int>, issued: int, now: int)
    requires issuer.keys != [] && reader.Holds(issuer.keys[0].material) && now > issued + Ttl(ttlMs)
    ensures Issue(issuer, payload, o, uuid, ttlMs, issued).Ok?
    ensures
      var result := Read(reader, Issue(issuer, payload, o, uuid, ttlMs, issued).value, now);
      result == Err(SessionExpired) <==> issued + Ttl(ttlMs) != 0
  {}
}

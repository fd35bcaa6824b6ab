/** Encrypted tokens over a ring of keys. Encryption is symbolic: a token opens with its own material only. */
module Jwe {
  import opened Prelude

  datatype Key = Key(kid: string, material: string)

  /** A claim value of a token's payload. */
  datatype Claim = Text(s: string) | Number(n: int) | Other

  type Claims = map<string, Claim>

  /** A token somebody sealed, with None for content that is not JSON, or bytes nobody did. */
  datatype Token = Sealed(material: string, kid: string, content: Option<Claims>) | Garbage

  datatype Failure = NotConfigured | CannotDecrypt | SessionExpired | InvalidMetadata

  /** The keys a node was started with; none at all means the ring is disabled. */
  datatype Keyring = Keyring(keys: seq<Key>) {

    function GetActive(): Result<Key, Failure>
    {
      if keys == [] then Err(NotConfigured) else Ok(keys[0])
    }

    function GetAll(): Result<seq<Key>, Failure>
    {
      if keys == [] then Err(NotConfigured) else Ok(keys)
    }

    predicate Holds(material: string)
    {
      exists k | k in keys :: k.material == material
    }
  }

  /** Opening with one key; None is the error that makes the next key be tried. */
  function OpenWith(key: Key, token: Token): Option<Claims>
  {
    if token.Sealed? && token.material == key.material then token.content else None
  }

  function Encrypt(ring: Keyring, claims: Claims): (r: Result<Token, Failure>)
    ensures ring.keys == [] ==> r == Err(NotConfigured)
    ensures ring.keys != [] ==> r == Ok(Sealed(ring.keys[0].material, ring.keys[0].kid, Some(claims)))
  {
    match ring.GetActive()
    case Err(e) => Err(e)
    case Ok(active) => Ok(Sealed(active.material, active.kid, Some(claims)))
  }

  /** What a ring makes of a token: its content if any key is the one it was sealed with. */
  function Decrypted(ring: Keyring, token: Token): Result<Claims, Failure>
  {
    if ring.keys == [] then Err(NotConfigured)
    else if token.Sealed? && token.content.Some? && ring.Holds(token.material) then Ok(token.content.value)
    else Err(CannotDecrypt)
  }

  /** Key after key, in ring order, until one opens the token. */
  method Decrypt(ring: Keyring, token: Token) returns (r: Result<Claims, Failure>)
    ensures r == Decrypted(ring, token)
    ensures r == Err(NotConfigured) <==> ring.keys == []
    ensures r.Ok? <==>
              token.Sealed? && token.content.Some? && exists k :: k in ring.keys && k.material == token.material
    ensures r.Ok? ==> token.content == Some(r.value)
    ensures r.Err? ==> r.error == NotConfigured || r.error == CannotDecrypt
  {
    var all := ring.GetAll();
    if all.Err? {
      return Err(all.error);
    }
    var keys := all.value;
    for n := 0 to |keys|
      invariant forall i | 0 <= i < n :: OpenWith(keys[i], token) == None
    {
      var content := OpenWith(keys[n], token);
      if content.Some? {
        assert ring.Holds(keys[n].material);
        return Ok(content.value);
      }
    }
    return Err(CannotDecrypt);
  }

  /** A token sealed under one ring opens under another exactly when that ring holds the first one's active key. */
  lemma OpensElsewhere(sealing: Keyring, opening: Keyring, claims: Claims)
    requires sealing.keys != [] && opening.keys != []
    ensures Encrypt(sealing, claims).Ok? && Encrypt(sealing, claims).value.kid == sealing.keys[0].kid
    ensures Decrypted(opening, Encrypt(sealing, claims).value)
              == if opening.Holds(sealing.keys[0].material) then Ok(claims) else Err(CannotDecrypt)
  {}
}

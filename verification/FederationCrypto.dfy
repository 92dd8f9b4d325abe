/** Purpose separation of the federation signatures: what is hashed for one purpose is
    never what is hashed for another, nor for a delegation grant. */
module FederationCrypto {
  import opened Results

  datatype Purpose = ConfigPurpose | StatusPurpose | TopologyPurpose | RelayPurpose

  function UpperName(p: Purpose): string {
    match p
    case ConfigPurpose => "CONFIG"
    case StatusPurpose => "STATUS"
    case TopologyPurpose => "TOPOLOGY"
    case RelayPurpose => "RELAY"
  }

  function PurposeOf(name: string): Option<Purpose> {
    if name == "config" then Some(ConfigPurpose)
    else if name == "status" then Some(StatusPurpose)
    else if name == "topology" then Some(TopologyPurpose)
    else if name == "relay" then Some(RelayPurpose)
    else None
  }

  /** `canonicalize`, on the JSON text of a payload. */
  function Canonicalize(body: string, purpose: string): Result<string, ()> {
    match PurposeOf(purpose)
    case None => Err(())
    case Some(p) => Ok("EFDI-" + UpperName(p) + "-V1\0" + body)
  }

  /** The bytes signed for a delegation grant. */
  function CanonicalGrant(body: string): string {
    "EFDI-DELEGATION-V1\0" + body
  }

  /** Equal bytes mean the same purpose and the same payload text. */
  lemma CanonicalizeInjective(a: string, p: string, b: string, q: string)
    requires Canonicalize(a, p).Ok? && Canonicalize(a, p) == Canonicalize(b, q)
    ensures p == q && a == b
  {
    var x, y := Canonicalize(a, p).value, Canonicalize(b, q).value;
    var u, v := UpperName(PurposeOf(p).value), UpperName(PurposeOf(q).value);
    assert x[5] == u[0] && y[5] == v[0];
    assert u == v;
    var head := "EFDI-" + u + "-V1\0";
    assert x[|head|..] == a && y[|head|..] == b;
  }

  /** A federation signature never covers the bytes of a grant. */
  lemma GrantsAreSeparate(body: string, purpose: string, grant: string)
    requires Canonicalize(body, purpose).Ok?
    ensures Canonicalize(body, purpose).value != CanonicalGrant(grant)
  {
    var x := Canonicalize(body, purpose).value;
    assert x[5] == UpperName(PurposeOf(purpose).value)[0];
    assert CanonicalGrant(grant)[5] == 'D';
  }
}

/** The three-way key agreement of a login and the user's pseudonym at an RP (RP/aaka.go, IdP/aake.go, lib/utils.go). */
module SessionKey {
  import opened Wrappers
  import opened Field

  datatype SessionError = MissingKey | UnknownEphemeralKey | ExchangeFailed | DecryptionFailed | WrongConfirmation

  type Key = nat

  /** HKDF over the three shared points; left open. */
  const DeriveSessionKey: (G1, G1, G1) -> Key

  /** The key-confirmation message: an ideal authenticated ciphertext of a pair of points, or bytes nobody sealed. */
  datatype Confirmation = Garbage | Sealed(key: Key, msg: (G1, G1), aad: (G1, G1))

  function Open(key: Key, c: Confirmation, aad: (G1, G1)): Option<(G1, G1)> {
    if c.Sealed? && c.key == key && c.aad == aad then Some(c.msg) else None
  }

  function DH(sk: Scalar, pk: G1): G1 { ScalarMult(sk, pk) }

  /** `None` stands for a nil key. */
  function X3KeyExchangeRP(sk1: Scalar, sk2: Scalar, pk1: Option<G1>, pk2: Option<G1>)
    : Result<(G1, G1, G1), SessionError>
  {
    if pk1.None? || pk2.None? then Err(MissingKey)
    else Ok((DH(sk1, pk2.value), DH(sk2, pk1.value), DH(sk2, pk2.value)))
  }

  function X3KeyExchangeIdP(sk1: Scalar, sk2: Scalar, pk1: Option<G1>, pk2: Option<G1>)
    : Result<(G1, G1, G1), SessionError>
  {
    if pk1.None? || pk2.None? then Err(MissingKey)
    else Ok((DH(sk2, pk1.value), DH(sk1, pk2.value), DH(sk2, pk2.value)))
  }

  datatype KeyPair = KeyPair(sk: Scalar, pk: G1)

  function Generate(sk: Scalar): KeyPair { KeyPair(sk, ScalarMult(sk, GENERATOR)) }

  /** What the RP sends the IdP along with its proof. */
  datatype E2EE = E2EE(clientPK: Option<G1>, clientEmpPK: Option<G1>, idPEmpKeyId: string, msg: Confirmation)

  /** `empSk` is what the key generator draws; the result is K_S, the ephemeral public key and the confirmation. */
  function NewSession(client: KeyPair, serverPk: Option<G1>, serverEmpPk: Option<G1>, empSk: Scalar)
    : Result<(Key, G1, Confirmation), SessionError>
  {
    var emp := Generate(empSk);
    var dhs := X3KeyExchangeRP(client.sk, emp.sk, serverPk, serverEmpPk);
    if dhs.Err? then Err(ExchangeFailed)
    else
      var ks := DeriveSessionKey(dhs.value.0, dhs.value.1, dhs.value.2);
      Ok((ks, emp.pk, Sealed(ks, (emp.pk, serverEmpPk.value), (client.pk, serverPk.value))))
  }

  function GetSessionKey(identity: KeyPair, empkeys: map<string, KeyPair>, e: E2EE): Result<Key, SessionError> {
    if e.idPEmpKeyId !in empkeys then Err(UnknownEphemeralKey)
    else
      var emp := empkeys[e.idPEmpKeyId];
      var dhs := X3KeyExchangeIdP(identity.sk, emp.sk, e.clientPK, e.clientEmpPK);
      if dhs.Err? then Err(ExchangeFailed)
      else
        var ks := DeriveSessionKey(dhs.value.0, dhs.value.1, dhs.value.2);
        match Open(ks, e.msg, (e.clientPK.value, identity.pk))
        case None => Err(DecryptionFailed)
        case Some(msg) => if msg == (e.clientEmpPK.value, emp.pk) then Ok(ks) else Err(WrongConfirmation)
  }

  /** K_S, the ephemeral key and the confirmation written out: all three shared points enter, each in its place. */
  lemma SessionWrittenOut(client: KeyPair, serverPk: G1, serverEmpPk: G1, empSk: Scalar)
    ensures var ks := DeriveSessionKey(Mul(client.sk, serverEmpPk), Mul(empSk, serverPk), Mul(empSk, serverEmpPk));
            NewSession(client, Some(serverPk), Some(serverEmpPk), empSk)
            == Ok((ks, empSk, Sealed(ks, (empSk, serverEmpPk), (client.pk, serverPk))))
  {
    MulOne(empSk);
  }

  /** The IdP derives K_S from the same three points and accepts exactly the confirmation sealed for them. */
  lemma SessionAcceptedIff(identity: KeyPair, empkeys: map<string, KeyPair>, e: E2EE, ks: Key)
    ensures GetSessionKey(identity, empkeys, e) == Ok(ks)
       <==> && e.idPEmpKeyId in empkeys && e.clientPK.Some? && e.clientEmpPK.Some?
            && var emp := empkeys[e.idPEmpKeyId];
               && ks == DeriveSessionKey(Mul(emp.sk, e.clientPK.value), Mul(identity.sk, e.clientEmpPK.value),
                                         Mul(emp.sk, e.clientEmpPK.value))
               && e.msg == Sealed(ks, (e.clientEmpPK.value, emp.pk), (e.clientPK.value, identity.pk))
  {}

  lemma DHCommutes(a: Scalar, b: Scalar)
    ensures DH(a, Generate(b).pk) == DH(b, Generate(a).pk)
  {
    MulOne(a);
    MulOne(b);
    MulComm(a, b);
  }

  /** Both ends derive the same K_S, whatever keys they hold, and the IdP's key-confirmation check passes. */
  lemma SessionKeysAgree(clientSk: Scalar, identitySk: Scalar, serverEmpSk: Scalar, empSk: Scalar,
                         id: string, empkeys: map<string, KeyPair>)
    requires id in empkeys && empkeys[id] == Generate(serverEmpSk)
    ensures var client, identity := Generate(clientSk), Generate(identitySk);
            var r := NewSession(client, Some(identity.pk), Some(empkeys[id].pk), empSk);
            && r.Ok?
            && GetSessionKey(identity, empkeys, E2EE(Some(client.pk), Some(r.value.1), id, r.value.2)) == Ok(r.value.0)
  {
    DHCommutes(clientSk, serverEmpSk);
    DHCommutes(empSk, identitySk);
    DHCommutes(empSk, serverEmpSk);
  }

  /**
   A confirmation serves one exchange only: whoever else accepts the same one, with whatever keys of its
   own, does so from the same client for the same two key pairs, and derives the same K_S.
   */
  lemma ConfirmationBindsKeys(identity: KeyPair, empkeys: map<string, KeyPair>, e: E2EE,
                              identity': KeyPair, empkeys': map<string, KeyPair>, e': E2EE)
    requires GetSessionKey(identity, empkeys, e).Ok? && GetSessionKey(identity', empkeys', e').Ok? && e.msg == e'.msg
    ensures e'.clientPK == e.clientPK && e'.clientEmpPK == e.clientEmpPK
    ensures identity'.pk == identity.pk && empkeys'[e'.idPEmpKeyId].pk == empkeys[e.idPEmpKeyId].pk
    ensures GetSessionKey(identity', empkeys', e') == GetSessionKey(identity, empkeys, e)
  {}

  // ---------------------------------------------------------------- pseudonyms

  function GenerateAuid(acid: G1, uid: Scalar): G1 { ScalarMult(uid, acid) }

  /** `k` is `None` when the factor is missing. */
  function UnblindAuid(auid: G1, k: Option<Scalar>): Result<G1, SessionError> {
    if k.None? then Err(MissingKey) else Ok(ScalarMult(Inv(k.value), auid))
  }

  /**
   The pseudonym a login yields: the broker randomizes sigma1 by k, the IdP raises it to the user's
   scalar, the RP takes k out again.
   */
  function PseudonymOf(sigma1: G1, k: Scalar, u: Scalar): Result<G1, SessionError> {
    UnblindAuid(GenerateAuid(ScalarMult(k, sigma1), u), Some(k))
  }

  /** It is u * sigma1, independent of the session's k, exactly when k is not zero or u * sigma1 is the identity. */
  lemma PseudonymIsStable(sigma1: G1, k: Scalar, u: Scalar)
    ensures PseudonymOf(sigma1, k, u) == Ok(ScalarMult(u, sigma1)) <==> k != 0 || ScalarMult(u, sigma1) == 0
  {
    if k == 0 {
      MulOne(sigma1);
      MulOne(u);
    } else {
      MulAssoc(u, k, sigma1);
      MulComm(u, k);
      MulAssoc(k, u, sigma1);
      MulAssoc(Inv(k), k, ScalarMult(u, sigma1));
      InvWorks(k);
      MulOne(ScalarMult(u, sigma1));
    }
  }

  /** Under one credential, any two sessions give one user one pseudonym, and different users different ones. */
  lemma PseudonymsSeparateUsers(sigma1: G1, k: Scalar, k': Scalar, u: Scalar, u': Scalar)
    requires k != 0 && k' != 0 && sigma1 != 0
    ensures PseudonymOf(sigma1, k, u) == PseudonymOf(sigma1, k', u') <==> u == u'
  {
    PseudonymIsStable(sigma1, k, u);
    PseudonymIsStable(sigma1, k', u');
    MulComm(u, sigma1);
    MulComm(u', sigma1);
    MulCancel(u, u', sigma1);
  }
}

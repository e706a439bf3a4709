/** RP registration: the RP's end (RP/register.go) and the IdP's end (IdP/register.go) of credential issuance. */
module Registration {
  import opened Wrappers
  import opened Field
  import opened PSSig
  import opened AnonCred
  import NIZK

  datatype RegError =
    | PrepareFailed | NilRegistration | KeysNotInitialized | BlindSignFailed(e: CredError) | CommunicationFailed
    | Sigma1Undecodable | Sigma2Undecodable | UnblindFailed | DomainCredInvalid | SecretCredInvalid | Panicked

  /** A signature on the wire: too short to be cut in two, the text "null", two points, or something else. */
  datatype WireSig = TooShort | Null | Undecodable | Wire(sig: Signature)

  datatype Request = Request(domain: Scalar, proof: Received)

  datatype Response = Response(sig1: WireSig, blindSig2: WireSig)

  // ---------------------------------------------------------------- the IdP

  datatype CredKeys = CredKeys(sk1: SecretKey, pk1: PublicKey, sk2: SecretKey, pk2: PublicKey)

  ghost predicate ValidKeys(k: CredKeys) {
    Match(k.sk1, k.pk1) && Match(k.sk2, k.pk2) && |k.sk1.yn| == 1 && |k.sk2.yn| == 2
  }

  /** `r1` and `r2` are what the two signing routines draw. */
  method GetRegisterRespToRP(credKey: Option<CredKeys>, req: Option<Request>, r1: Scalar, r2: Scalar)
    returns (res: Result<Response, RegError>)
    requires credKey.Some? ==> ValidKeys(credKey.value)
    ensures if req.None? then res == Err(NilRegistration)
            else if credKey.None? then res == Err(KeysNotInitialized)
            else
              var k, D, p := credKey.value, req.value.domain, req.value.proof;
              if p.Complete? && |p.proof.Zs| == 1 && NIZK.Verifies(GENERATOR, [k.pk2.Yn[1]], p.proof) then
                && res.Ok? && res.value.sig1.Wire?
                && res.value.sig1.sig.sigma1 == r1 && PSSig.Verifies(Some(res.value.sig1.sig), [D], Some(k.pk1))
                && res.value.blindSig2 == Wire(BlindSignature(k.sk2.x, p.proof.C1, [D], k.pk2.Yn, r2))
                && res.value.blindSig2.sig.sigma1 == r2
                && res.value.blindSig2.sig.sigma2
                   == ScalarMult(r2, Add(Add(k.sk2.x, p.proof.C1), ScalarMult(D, k.sk2.yn[0])))
              else
                res == Err(BlindSignFailed(
                             if p.NilRequest? then InvalidInputs
                             else if p.Incomplete? then MissingElements
                             else if |p.proof.Zs| != 1 then LengthMismatch
                             else ProofRejected))
  {
    if req.None? { return Err(NilRegistration); }
    if credKey.None? { return Err(KeysNotInitialized); }
    var CredKeys(sk1, pk1, sk2, pk2) := credKey.value;
    var Request(domain, proof) := req.value;
    var sig1 := PSSign([domain], sk1, r1);
    SignedVerifies(sig1, [domain], sk1, pk1);
    var received := proof;
    if proof.Complete? {
      var zs := [];
      for i := 0 to |proof.proof.Zs|
        invariant zs == proof.proof.Zs[..i]
      {
        zs := zs + [proof.proof.Zs[i]];
      }
      received := Complete(proof.proof.(Zs := zs));
      assert received == proof;
    }
    assert pk2.Yn[1..] == [pk2.Yn[1]];
    var sig2 := BlindSign(Some(sk2), Some(pk2), received, [domain], r2);
    if sig2.Err? { return Err(BlindSignFailed(sig2.error)); }
    return Ok(Response(Wire(sig1), Wire(sig2.value)));
  }

  // ---------------------------------------------------------------- the RP

  lemma OneHiddenAttribute(isk: Scalar, Y: G1, d: Scalar, r0: Scalar, rs: Scalar)
    ensures BlindRequest([isk], [Y], d, r0, [rs]).C1 == Add(d, ScalarMult(isk, Y))
  {
    RequestWrittenOut([isk], [Y], d, r0, [rs]);
    OneTerm(isk, Y);
    assert [Y][..1] == [Y];
  }

  /** What answers the RP's request: nothing, some response, or an honest IdP with what its signing routines draw. */
  datatype Peer = Unreachable | Answers(resp: Response) | Honest(keys: CredKeys, r1: Scalar, r2: Scalar)

  class RPServer {
    const domain: Scalar
    const identitySk: Scalar
    const vk1: PublicKey
    const vk2: PublicKey
    var domainSigma: Option<Signature>
    var secretSigmaBar: Option<Signature>
    var secretIdentitySk: Option<Scalar>

    ghost predicate KeysOf(k: CredKeys) {
      ValidKeys(k) && vk1 == k.pk1 && vk2 == k.pk2
    }

    constructor (domain: Scalar, identitySk: Scalar, vk1: PublicKey, vk2: PublicKey)
      ensures this.domain == domain && this.identitySk == identitySk && this.vk1 == vk1 && this.vk2 == vk2
      ensures domainSigma == None && secretSigmaBar == None && secretIdentitySk == None
    {
      this.domain, this.identitySk, this.vk1, this.vk2 := domain, identitySk, vk1, vk2;
      domainSigma, secretSigmaBar, secretIdentitySk := None, None, None;
    }

    method GetRegisterRequestToIdP(d: Scalar, r0: Scalar, rs: Scalar) returns (r: Result<(Request, Scalar), RegError>)
      requires |vk2.Yn| > 1
      ensures r == Ok((Request(domain, Complete(BlindRequest([identitySk], [vk2.Yn[1]], d, r0, [rs]))), d))
      ensures r.value.0.proof.proof.C1 == Add(d, ScalarMult(identitySk, vk2.Yn[1]))
    {
      var prepared := PrepareBlindSign([identitySk], Some([vk2.Yn[1]]), d, r0, [rs]);
      if prepared.Err? { return Err(PrepareFailed); }
      var (proof, factor) := prepared.value;
      var zsBytes := [];
      for i := 0 to |proof.Zs|
        invariant zsBytes == proof.Zs[..i]
      {
        zsBytes := zsBytes + [proof.Zs[i]];
      }
      assert proof.(Zs := zsBytes) == proof;
      OneHiddenAttribute(identitySk, vk2.Yn[1], d, r0, rs);
      return Ok((Request(domain, Complete(proof.(Zs := zsBytes))), factor));
    }

    /** What `GetCredential` answers, with the two credentials it stores on the way. */
    ghost function Credential(resp: Response, d: Option<Scalar>)
      : (Option<Signature>, Option<Signature>, Result<(), RegError>)
      requires |vk1.Yhatn| > 0 && |vk2.Yhatn| > 1
      reads this
    {
      if resp.sig1.TooShort? then (None, secretSigmaBar, Err(Panicked))
      else if resp.sig1.Undecodable? then (None, secretSigmaBar, Err(Sigma1Undecodable))
      else
        var sigma := if resp.sig1.Wire? then Some(resp.sig1.sig) else None;
        if resp.blindSig2.TooShort? then (sigma, None, Err(Panicked))
        else if resp.blindSig2.Undecodable? then (sigma, None, Err(Sigma2Undecodable))
        else if d.None? then (sigma, None, Err(UnblindFailed))
        else if resp.blindSig2.Null? then (sigma, None, Err(Panicked))
        else
          var bar := Some(Unblinded(resp.blindSig2.sig, d.value));
          (sigma, bar,
           if !PSSig.Verifies(sigma, [domain], Some(vk1)) then Err(DomainCredInvalid)
           else if !PSSig.Verifies(bar, [domain, identitySk], Some(vk2)) then Err(SecretCredInvalid)
           else Ok(()))
    }

    /**
     Accepts exactly when both signatures verify once the second is unblinded. The fields are
     overwritten on the way, also when the answer is refused; unblinding an empty signature panics.
     */
    method GetCredential(resp: Response, d: Option<Scalar>) returns (r: Result<(), RegError>)
      requires |vk1.Yhatn| > 0 && |vk2.Yhatn| > 1
      modifies this
      ensures (domainSigma, secretSigmaBar, r) == old(Credential(resp, d))
      ensures r == Ok(()) <==>
                && resp.sig1.Wire? && resp.blindSig2.Wire? && d.Some?
                && PSSig.Verifies(Some(resp.sig1.sig), [domain], Some(vk1))
                && PSSig.Verifies(Some(Unblinded(resp.blindSig2.sig, d.value)), [domain, identitySk], Some(vk2))
      ensures r == Ok(()) ==>
                && domainSigma == Some(resp.sig1.sig) && secretSigmaBar.Some?
                && secretSigmaBar.value.sigma1 == resp.blindSig2.sig.sigma1
                && Add(secretSigmaBar.value.sigma2, ScalarMult(d.value, resp.blindSig2.sig.sigma1))
                   == resp.blindSig2.sig.sigma2
      ensures var reached := resp.sig1.Wire? || resp.sig1.Null?;
              secretIdentitySk
              == if reached && (resp.blindSig2.Wire? || (resp.blindSig2.Null? && d.None?)) then Some(identitySk)
                 else old(secretIdentitySk)
    {
      domainSigma := None;
      if resp.sig1.TooShort? { return Err(Panicked); }
      if resp.sig1.Undecodable? { return Err(Sigma1Undecodable); }
      domainSigma := if resp.sig1.Wire? then Some(resp.sig1.sig) else None;
      secretSigmaBar := None;
      if resp.blindSig2.TooShort? { return Err(Panicked); }
      if resp.blindSig2.Undecodable? { return Err(Sigma2Undecodable); }
      if resp.blindSig2.Wire? {
        secretSigmaBar := Some(resp.blindSig2.sig);
      } else if d.Some? {
        return Err(Panicked);
      }
      var unblinded := Unblind(secretSigmaBar, d);
      secretSigmaBar := if unblinded.Ok? then Some(unblinded.value) else None;
      secretIdentitySk := Some(identitySk);
      if unblinded.Err? { return Err(UnblindFailed); }
      var ok := PSVerify(domainSigma, [domain], Some(vk1));
      if !ok { return Err(DomainCredInvalid); }
      ok := PSVerify(secretSigmaBar, [domain, identitySk], Some(vk2));
      if !ok { return Err(SecretCredInvalid); }
      return Ok(());
    }

    /**
     One exchange with whatever answers at the IdP's address. Building the request never fails; an
     honest IdP's answer is always accepted, and leaves the RP with two valid credentials. Any other
     answer is accepted exactly when the credentials in it verify.
     */
    method RegisterToIdP(peer: Peer, d: Scalar, r0: Scalar, rs: Scalar) returns (r: Result<(), RegError>)
      requires |vk1.Yhatn| > 0 && |vk2.Yhatn| > 1 && |vk2.Yn| > 1
      requires peer.Honest? ==> KeysOf(peer.keys)
      modifies this
      ensures peer.Unreachable? ==> r == Err(CommunicationFailed) && unchanged(this)
      ensures peer.Answers? ==> (domainSigma, secretSigmaBar, r) == old(Credential(peer.resp, Some(d)))
      ensures peer.Honest? ==>
                && r == Ok(()) && PSSig.Verifies(domainSigma, [domain], Some(vk1))
                && PSSig.Verifies(secretSigmaBar, [domain, identitySk], Some(vk2))
                && domainSigma.value.sigma1 == peer.r1 && secretSigmaBar.value.sigma1 == peer.r2
    {
      var request := GetRegisterRequestToIdP(d, r0, rs);
      match peer
      case Unreachable => return Err(CommunicationFailed);
      case Answers(resp) => r := GetCredential(resp, Some(request.value.1));
      case Honest(k, r1, r2) =>
        BlindIssuanceRoundTrip(k.sk2, k.pk2, [domain], [identitySk], d, r0, [rs], r2);
        assert k.pk2.Yn[1..] == [k.pk2.Yn[1]] && [domain] + [identitySk] == [domain, identitySk];
        var resp := GetRegisterRespToRP(Some(k), Some(request.value.0), r1, r2);
        r := GetCredential(resp.value, Some(request.value.1));
    }
  }
}

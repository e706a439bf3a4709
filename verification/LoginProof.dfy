/** The proof of knowledge at the heart of a login: prover (RP/aaka.go) and verifier (IdP/aake.go). */
module LoginProof {
  import opened Wrappers
  import opened Field
  import opened MultiExp
  import opened PSSig

  datatype LoginError =
    | InvalidRequest | UndecodableSig | UndecodableScalar | MissingCredential
    | Component1Failed | Component2Failed | Component3Failed | Signature1Failed | Signature2Failed

  /** A field of a request: absent, present but not decodable, or decoded. */
  datatype RequestField<T> = Missing | Undecodable | Decoded(value: T)

  datatype Commitments = Commitments(C1: G2, C2: G2, C3: G1)

  datatype Announcements = Announcements(R1: G2, R2: G2, R3: G1)

  datatype ProofResponses = ProofResponses(zD: Scalar, zQsk: Scalar, z1: Scalar, z2: Scalar, z3: Scalar)

  datatype PoK = PoK(sign1: Signature, sign2: Signature, C: Commitments, R: Announcements, Z: ProofResponses)

  /** What both sides hash: the verification keys' G2 vectors, the commitments and the announcements. */
  datatype Transcript = Transcript(Yhat1: seq<G2>, Yhat2: seq<G2>, C: Commitments, R: Announcements)

  const LoginHash: Transcript -> Scalar

  /** Everything the prover draws. */
  datatype Randomness = Randomness(
    k2: Scalar, t2: Scalar, rQpk: Scalar, rD: Scalar, rQsk: Scalar, r1: Scalar, r2: Scalar, r3: Scalar)

  // ---------------------------------------------------------------- the prover

  ghost function Commit(t: Scalar, D: Scalar, isk: Scalar, vk1: PublicKey, vk2: PublicKey, u: Randomness): Commitments
    requires |vk1.Yhatn| > 0 && |vk2.Yhatn| > 1
  {
    Commitments(
      Combine([t, D], [GENERATOR, vk1.Yhatn[0]]),
      Combine([u.t2, D, isk], [GENERATOR, vk2.Yhatn[0], vk2.Yhatn[1]]),
      Mul(isk, u.rQpk))
  }

  ghost function Announce(isk: Scalar, vk1: PublicKey, vk2: PublicKey, u: Randomness): Announcements
    requires |vk1.Yhatn| > 0 && |vk2.Yhatn| > 1
  {
    Announcements(
      Combine([u.r1, u.rD], [GENERATOR, vk1.Yhatn[0]]),
      Combine([u.r2, u.rD, u.rQsk], [GENERATOR, vk2.Yhatn[0], vk2.Yhatn[1]]),
      Mul(isk, u.r3))
  }

  ghost function Respond(c: Scalar, t: Scalar, D: Scalar, isk: Scalar, u: Randomness): ProofResponses {
    ProofResponses(
      Add(Mul(c, D), u.rD), Add(Mul(c, isk), u.rQsk), Add(Mul(c, t), u.r1), Add(Mul(c, u.t2), u.r2),
      Mul(Add(Mul(c, u.rQpk), u.r3), isk))
  }

  ghost function HonestProof(sign1: Signature, t: Scalar, sigmaBar: Signature, D: Scalar, isk: Scalar,
                             vk1: PublicKey, vk2: PublicKey, u: Randomness): PoK
    requires |vk1.Yhatn| > 0 && |vk2.Yhatn| > 1
  {
    var C, R := Commit(t, D, isk, vk1, vk2, u), Announce(isk, vk1, vk2, u);
    PoK(sign1, Randomize(sigmaBar, u.k2, u.t2), C, R,
        Respond(LoginHash(Transcript(vk1.Yhatn, vk2.Yhatn, C, R)), t, D, isk, u))
  }

  /**
   The proof written out. Commitments, announcements and responses carry every random value drawn for
   them; the challenge is the hash of both keys' vectors, the commitments and the announcements.
   */
  lemma ProofWrittenOut(sign1: Signature, t: Scalar, sigmaBar: Signature, D: Scalar, isk: Scalar,
                        vk1: PublicKey, vk2: PublicKey, u: Randomness)
    requires |vk1.Yhatn| > 0 && |vk2.Yhatn| > 1
    ensures var p := HonestProof(sign1, t, sigmaBar, D, isk, vk1, vk2, u);
            var c := LoginHash(Transcript(vk1.Yhatn, vk2.Yhatn, p.C, p.R));
            && c == ChallengeOf(vk1, vk2, p) && p.sign1 == sign1
            && p.sign2.sigma1 == ScalarMult(u.k2, sigmaBar.sigma1)
            && p.sign2.sigma2 == ScalarMult(u.k2, Add(sigmaBar.sigma2, ScalarMult(u.t2, sigmaBar.sigma1)))
            && p.Z.zD == Add(Mul(c, D), u.rD) && p.Z.zQsk == Add(Mul(c, isk), u.rQsk)
            && p.Z.z1 == Add(Mul(c, t), u.r1) && p.Z.z2 == Add(Mul(c, u.t2), u.r2)
            && p.Z.z3 == Mul(Add(Mul(c, u.rQpk), u.r3), isk)
    ensures var p := HonestProof(sign1, t, sigmaBar, D, isk, vk1, vk2, u);
            var Y0, Y1 := vk2.Yhatn[0], vk2.Yhatn[1];
            && p.C.C1 == Add(t, ScalarMult(D, vk1.Yhatn[0]))
            && p.C.C2 == Add(Add(u.t2, ScalarMult(D, Y0)), ScalarMult(isk, Y1)) && p.C.C3 == Mul(isk, u.rQpk)
            && p.R.R1 == Add(u.r1, ScalarMult(u.rD, vk1.Yhatn[0]))
            && p.R.R2 == Add(Add(u.r2, ScalarMult(u.rD, Y0)), ScalarMult(u.rQsk, Y1)) && p.R.R3 == Mul(isk, u.r3)
  {
    CombineTwo(t, D, vk1.Yhatn[0]);
    CombineTwo(u.r1, u.rD, vk1.Yhatn[0]);
    CombineThree(u.t2, D, isk, vk2.Yhatn[0], vk2.Yhatn[1]);
    CombineThree(u.r2, u.rD, u.rQsk, vk2.Yhatn[0], vk2.Yhatn[1]);
    CombineTwo(u.t2, D, vk2.Yhatn[0]);
    CombineTwo(u.r2, u.rD, vk2.Yhatn[0]);
  }

  /**
   The responses hide domain, identity secret and blinding: under any challenge, every tuple of
   responses comes from exactly one choice of the five masks, provided the identity secret is not zero.
   */
  lemma OneMaskPerResponses(c: Scalar, t: Scalar, D: Scalar, isk: Scalar, u: Randomness, Z: ProofResponses)
    requires isk != 0
    ensures Respond(c, t, D, isk, u) == Z
       <==> && u.rD == Sub(Z.zD, Mul(c, D)) && u.rQsk == Sub(Z.zQsk, Mul(c, isk))
            && u.r1 == Sub(Z.z1, Mul(c, t)) && u.r2 == Sub(Z.z2, Mul(c, u.t2))
            && u.r3 == Sub(Mul(Inv(isk), Z.z3), Mul(c, u.rQpk))
  {
    Transpose(Mul(c, D), u.rD, Z.zD);
    Transpose(Mul(c, isk), u.rQsk, Z.zQsk);
    Transpose(Mul(c, t), u.r1, Z.z1);
    Transpose(Mul(c, u.t2), u.r2, Z.z2);
    var a := Add(Mul(c, u.rQpk), u.r3);
    Transpose(Mul(c, u.rQpk), u.r3, Mul(Inv(isk), Z.z3));
    DivideBy(a, isk, Z.z3);
  }

  lemma DivideBy(a: Scalar, b: Scalar, z: Scalar)
    requires b != 0
    ensures Mul(a, b) == z <==> a == Mul(Inv(b), z)
  {
    InvWorks(b);
    MulComm(a, b);
    MulAssoc(Inv(b), b, a);
    MulAssoc(b, Inv(b), z);
    MulOne(a);
    MulOne(z);
  }

  /** A combination of two and of three terms, as straight-line code adds them up. */
  lemma CombineTwo(z0: Scalar, z1: Scalar, b: Scalar)
    ensures Combine([z0, z1], [GENERATOR, b]) == Add(ScalarMult(z0, GENERATOR), ScalarMult(z1, b))
    ensures ScalarMult(z0, GENERATOR) == z0
  {
    assert [z0, z1][..1] == [z0] && [GENERATOR, b][..1] == [GENERATOR];
    assert [z0][..0] == [] && [GENERATOR][..0] == [];
    assert Combine([z0], [GENERATOR]) == ScalarMult(z0, GENERATOR);
    MulOne(z0);
  }

  lemma CombineThree(z0: Scalar, z1: Scalar, z2: Scalar, b1: Scalar, b2: Scalar)
    ensures Combine([z0, z1, z2], [GENERATOR, b1, b2])
         == Add(Add(ScalarMult(z0, GENERATOR), ScalarMult(z1, b1)), ScalarMult(z2, b2))
  {
    assert [z0, z1, z2][..2] == [z0, z1] && [GENERATOR, b1, b2][..2] == [GENERATOR, b1];
    CombineTwo(z0, z1, b1);
  }

  method GeneratePoK(rSig1: RequestField<Signature>, t: RequestField<Scalar>, sigmaBar: Option<Signature>,
                     identitySk: Scalar, domain: Scalar, vk1: PublicKey, vk2: PublicKey, u: Randomness)
    returns (r: Result<(PoK, Scalar, G1), LoginError>)
    requires |vk1.Yhatn| > 0 && |vk2.Yhatn| > 1
    ensures if rSig1.Missing? || t.Missing? then r == Err(InvalidRequest)
            else if rSig1.Undecodable? then r == Err(UndecodableSig)
            else if t.Undecodable? then r == Err(UndecodableScalar)
            else if sigmaBar.None? then r == Err(MissingCredential)
            else
              var e := Mul(identitySk, u.rQpk);
              r == Ok((HonestProof(rSig1.value, t.value, sigmaBar.value, domain, identitySk, vk1, vk2, u), e, e))
  {
    if rSig1.Missing? || t.Missing? { return Err(InvalidRequest); }
    if rSig1.Undecodable? { return Err(UndecodableSig); }
    if t.Undecodable? { return Err(UndecodableScalar); }
    var randomized := RandomizeSig(sigmaBar, u.k2, u.t2);
    if randomized.Err? { return Err(MissingCredential); }
    var (rsigma2, _, rSignElement2) := randomized.value;
    var eQsk := Mul(identitySk, u.rQpk);
    var eQpk := ScalarMult(eQsk, GENERATOR);
    MulOne(eQsk);

    var C1 := ScalarMult(t.value, GENERATOR);
    var tmpG2 := ScalarMult(domain, vk1.Yhatn[0]);
    C1 := Add(C1, tmpG2);
    CombineTwo(t.value, domain, vk1.Yhatn[0]);
    var R1 := ScalarMult(u.r1, GENERATOR);
    tmpG2 := ScalarMult(u.rD, vk1.Yhatn[0]);
    R1 := Add(R1, tmpG2);
    CombineTwo(u.r1, u.rD, vk1.Yhatn[0]);

    var C2 := ScalarMult(rSignElement2, GENERATOR);
    tmpG2 := ScalarMult(domain, vk2.Yhatn[0]);
    C2 := Add(C2, tmpG2);
    tmpG2 := ScalarMult(identitySk, vk2.Yhatn[1]);
    C2 := Add(C2, tmpG2);
    CombineThree(u.t2, domain, identitySk, vk2.Yhatn[0], vk2.Yhatn[1]);
    var R2 := ScalarMult(u.r2, GENERATOR);
    tmpG2 := ScalarMult(u.rD, vk2.Yhatn[0]);
    R2 := Add(R2, tmpG2);
    tmpG2 := ScalarMult(u.rQsk, vk2.Yhatn[1]);
    R2 := Add(R2, tmpG2);
    CombineThree(u.r2, u.rD, u.rQsk, vk2.Yhatn[0], vk2.Yhatn[1]);

    var C3 := eQpk;
    var tmp2 := Mul(identitySk, u.r3);
    var R3 := ScalarMult(tmp2, GENERATOR);
    MulOne(tmp2);

    var C, R := Commitments(C1, C2, C3), Announcements(R1, R2, R3);
    var c := LoginHash(Transcript(vk1.Yhatn, vk2.Yhatn, C, R));
    var zD := Mul(c, domain);
    zD := Add(zD, u.rD);
    var zQsk := Mul(c, identitySk);
    zQsk := Add(zQsk, u.rQsk);
    var z1 := Mul(c, t.value);
    z1 := Add(z1, u.r1);
    var z2 := Mul(c, rSignElement2);
    z2 := Add(z2, u.r2);
    var z3 := Mul(c, u.rQpk);
    z3 := Add(z3, u.r3);
    z3 := Mul(z3, identitySk);
    return Ok((PoK(rSig1.value, rsigma2, C, R, ProofResponses(zD, zQsk, z1, z2, z3)), eQsk, eQpk));
  }

  // ---------------------------------------------------------------- the verifier

  /** The three response equations under a challenge. */
  ghost predicate ResponsesAccept(c: Scalar, vk1: PublicKey, vk2: PublicKey, p: PoK)
    requires |vk1.Yhatn| > 0 && |vk2.Yhatn| > 1
  {
    && Accepts1(c, vk1, p) && Accepts2(c, vk2, p) && Accepts3(c, p)
  }

  ghost predicate Accepts1(c: Scalar, vk1: PublicKey, p: PoK)
    requires |vk1.Yhatn| > 0
  {
    Accepts([p.Z.z1, p.Z.zD], [GENERATOR, vk1.Yhatn[0]], p.R.R1, c, p.C.C1)
  }

  ghost predicate Accepts2(c: Scalar, vk2: PublicKey, p: PoK)
    requires |vk2.Yhatn| > 1
  {
    Accepts([p.Z.z2, p.Z.zD, p.Z.zQsk], [GENERATOR, vk2.Yhatn[0], vk2.Yhatn[1]], p.R.R2, c, p.C.C2)
  }

  ghost predicate Accepts3(c: Scalar, p: PoK) {
    Accepts([p.Z.z3], [GENERATOR], p.R.R3, c, p.C.C3)
  }

  /** A pairing check: the signature is valid for whatever the commitment commits to. */
  ghost predicate SignatureFits(sign: Signature, commitment: G2, vk: PublicKey) {
    sign.sigma2 == ScalarMult(Add(commitment, vk.Xhat), sign.sigma1)
  }

  ghost function Verdict(c: Scalar, vk1: PublicKey, vk2: PublicKey, p: PoK): Result<(), LoginError>
    requires |vk1.Yhatn| > 0 && |vk2.Yhatn| > 1
  {
    if !Accepts1(c, vk1, p) then Err(Component1Failed)
    else if !Accepts2(c, vk2, p) then Err(Component2Failed)
    else if !Accepts3(c, p) then Err(Component3Failed)
    else if !SignatureFits(p.sign1, p.C.C1, vk1) then Err(Signature1Failed)
    else if !SignatureFits(p.sign2, p.C.C2, vk2) then Err(Signature2Failed)
    else Ok(())
  }

  ghost function ChallengeOf(vk1: PublicKey, vk2: PublicKey, p: PoK): Scalar {
    LoginHash(Transcript(vk1.Yhatn, vk2.Yhatn, p.C, p.R))
  }

  /** Acceptance written out: three response equations and two pairing equations, under the hash of the transcript. */
  lemma AcceptedIff(vk1: PublicKey, vk2: PublicKey, p: PoK)
    requires |vk1.Yhatn| > 0 && |vk2.Yhatn| > 1
    ensures var c := LoginHash(Transcript(vk1.Yhatn, vk2.Yhatn, p.C, p.R));
            Verdict(ChallengeOf(vk1, vk2, p), vk1, vk2, p).Ok?
            <==> && Add(p.Z.z1, ScalarMult(p.Z.zD, vk1.Yhatn[0])) == Add(p.R.R1, ScalarMult(c, p.C.C1))
                 && Add(Add(p.Z.z2, ScalarMult(p.Z.zD, vk2.Yhatn[0])), ScalarMult(p.Z.zQsk, vk2.Yhatn[1]))
                    == Add(p.R.R2, ScalarMult(c, p.C.C2))
                 && p.Z.z3 == Add(p.R.R3, ScalarMult(c, p.C.C3))
                 && Pair(p.sign1.sigma1, Add(p.C.C1, vk1.Xhat)) == Pair(p.sign1.sigma2, GENERATOR)
                 && Pair(p.sign2.sigma1, Add(p.C.C2, vk2.Xhat)) == Pair(p.sign2.sigma2, GENERATOR)
  {
    CombineTwo(p.Z.z1, p.Z.zD, vk1.Yhatn[0]);
    CombineThree(p.Z.z2, p.Z.zD, p.Z.zQsk, vk2.Yhatn[0], vk2.Yhatn[1]);
    CombineTwo(p.Z.z2, p.Z.zD, vk2.Yhatn[0]);
    OneTerm(p.Z.z3, GENERATOR);
    assert [GENERATOR][..1] == [GENERATOR];
    MulOne(p.Z.z3);
    PairingFits(p.sign1, Add(p.C.C1, vk1.Xhat));
    PairingFits(p.sign2, Add(p.C.C2, vk2.Xhat));
  }

  lemma PairingFits(sign: Signature, key: G2)
    ensures Pair(sign.sigma1, key) == Pair(sign.sigma2, GENERATOR) <==> sign.sigma2 == ScalarMult(key, sign.sigma1)
  {
    MulComm(sign.sigma1, key);
    MulOne(sign.sigma2);
  }

  method VerifyPoK(vk1: PublicKey, vk2: PublicKey, proof: PoK) returns (r: Result<(), LoginError>)
    requires |vk1.Yhatn| > 0 && |vk2.Yhatn| > 1
    ensures r == Verdict(ChallengeOf(vk1, vk2, proof), vk1, vk2, proof)
  {
    var c := LoginHash(Transcript(vk1.Yhatn, vk2.Yhatn, proof.C, proof.R));
    var ProofResponses(zD, zQsk, z1, z2, z3) := proof.Z;

    var left1 := ScalarMult(z1, GENERATOR);
    var tmpG2 := ScalarMult(zD, vk1.Yhatn[0]);
    left1 := Add(left1, tmpG2);
    CombineTwo(z1, zD, vk1.Yhatn[0]);
    var right1 := proof.R.R1;
    tmpG2 := ScalarMult(c, proof.C.C1);
    right1 := Add(right1, tmpG2);
    if left1 != right1 { return Err(Component1Failed); }

    var left2 := ScalarMult(z2, GENERATOR);
    tmpG2 := ScalarMult(zD, vk2.Yhatn[0]);
    left2 := Add(left2, tmpG2);
    tmpG2 := ScalarMult(zQsk, vk2.Yhatn[1]);
    left2 := Add(left2, tmpG2);
    CombineThree(z2, zD, zQsk, vk2.Yhatn[0], vk2.Yhatn[1]);
    var right2 := proof.R.R2;
    tmpG2 := ScalarMult(c, proof.C.C2);
    right2 := Add(right2, tmpG2);
    if left2 != right2 { return Err(Component2Failed); }

    var left3 := ScalarMult(z3, GENERATOR);
    assert [z3][..0] == [] && [GENERATOR][..0] == [];
    var right3 := proof.R.R3;
    var tmpG1 := ScalarMult(c, proof.C.C3);
    right3 := Add(right3, tmpG1);
    if left3 != right3 { return Err(Component3Failed); }

    var sumG2 := Add(proof.C.C1, vk1.Xhat);
    var lhs := Pair(proof.sign1.sigma1, sumG2);
    var rhs := Pair(proof.sign1.sigma2, GENERATOR);
    MulComm(proof.sign1.sigma1, sumG2);
    MulOne(proof.sign1.sigma2);
    if lhs != rhs { return Err(Signature1Failed); }
    sumG2 := Add(proof.C.C2, vk2.Xhat);
    lhs := Pair(proof.sign2.sigma1, sumG2);
    rhs := Pair(proof.sign2.sigma2, GENERATOR);
    MulComm(proof.sign2.sigma1, sumG2);
    MulOne(proof.sign2.sigma2);
    if lhs != rhs { return Err(Signature2Failed); }
    return Ok(());
  }

  // ---------------------------------------------------------------- completeness

  /** The pairing check against a commitment to (t, A) is the randomized-signature equation. */
  lemma FitsIffRandomized(sign: Signature, t: Scalar, A: seq<Scalar>, commitment: G2, vk: PublicKey)
    requires |A| <= |vk.Yhatn| && commitment == Combine([t] + A, [GENERATOR] + vk.Yhatn[..|A|])
    ensures SignatureFits(sign, commitment, vk) <==> VerifiesRandomized(Some(sign), t, A, vk)
  {
    CombineCons(t, GENERATOR, A, vk.Yhatn[..|A|]);
    MulOne(t);
    assert Add(Add(t, Combine(A, vk.Yhatn[..|A|])), vk.Xhat) == Add(Add(vk.Xhat, t), Combine(A, vk.Yhatn[..|A|]));
  }

  lemma HonestResponsesPass(c: Scalar, t: Scalar, D: Scalar, isk: Scalar, vk1: PublicKey, vk2: PublicKey,
                            u: Randomness, p: PoK)
    requires |vk1.Yhatn| > 0 && |vk2.Yhatn| > 1
    requires p.C == Commit(t, D, isk, vk1, vk2, u) && p.R == Announce(isk, vk1, vk2, u)
    requires p.Z == Respond(c, t, D, isk, u)
    ensures ResponsesAccept(c, vk1, vk2, p)
  {
    HonestResponsesAccepted([t, D], [u.r1, u.rD], [GENERATOR, vk1.Yhatn[0]], c);
    assert Responses(c, [t, D], [u.r1, u.rD]) == [p.Z.z1, p.Z.zD];
    HonestResponsesAccepted([u.t2, D, isk], [u.r2, u.rD, u.rQsk], [GENERATOR, vk2.Yhatn[0], vk2.Yhatn[1]], c);
    assert Responses(c, [u.t2, D, isk], [u.r2, u.rD, u.rQsk]) == [p.Z.z2, p.Z.zD, p.Z.zQsk];
    assert [p.Z.z3][..0] == [] && [GENERATOR][..0] == [];
    MulOne(p.Z.z3);
    Distribute(isk, Mul(c, u.rQpk), u.r3);
    MulAssoc(c, u.rQpk, isk);
    MulComm(u.rQpk, isk);
    MulComm(u.r3, isk);
  }

  /**
   End-to-end completeness, exactly. Take any domain, identity secret and verification keys, any pair
   of credentials, any nonzero broker randomization (k, t) of the first and any prover randomness with
   a nonzero k2: the proof passes all five checks, under the same challenge on both sides, iff the
   first credential is valid on the domain and the second on domain and identity secret.
   */
  lemma ProofPassesIffCredentials(sigma: Signature, sigmaBar: Signature, k: Scalar, t: Scalar, D: Scalar, isk: Scalar,
                                  vk1: PublicKey, vk2: PublicKey, u: Randomness)
    requires |vk1.Yhatn| == |vk1.Yn| == 1 && |vk2.Yhatn| == |vk2.Yn| == 2 && k != 0 && u.k2 != 0
    ensures var p := HonestProof(Randomize(sigma, k, t), t, sigmaBar, D, isk, vk1, vk2, u);
            Verdict(ChallengeOf(vk1, vk2, p), vk1, vk2, p) == Ok(())
            <==> Verifies(Some(sigma), [D], Some(vk1)) && Verifies(Some(sigmaBar), [D, isk], Some(vk2))
  {
    var p := HonestProof(Randomize(sigma, k, t), t, sigmaBar, D, isk, vk1, vk2, u);
    HonestResponsesPass(ChallengeOf(vk1, vk2, p), t, D, isk, vk1, vk2, u, p);
    CommitmentsSplit(t, D, isk, vk1, vk2, u);
    FitsIffRandomized(p.sign1, t, [D], p.C.C1, vk1);
    FitsIffRandomized(p.sign2, u.t2, [D, isk], p.C.C2, vk2);
    RandomizedIffOriginal(sigma, k, t, [D], vk1);
    RandomizedIffOriginal(sigmaBar, u.k2, u.t2, [D, isk], vk2);
  }

  lemma CommitmentsSplit(t: Scalar, D: Scalar, isk: Scalar, vk1: PublicKey, vk2: PublicKey, u: Randomness)
    requires |vk1.Yhatn| > 0 && |vk2.Yhatn| > 1
    ensures Commit(t, D, isk, vk1, vk2, u).C1 == Combine([t] + [D], [GENERATOR] + vk1.Yhatn[..1])
    ensures Commit(t, D, isk, vk1, vk2, u).C2 == Combine([u.t2] + [D, isk], [GENERATOR] + vk2.Yhatn[..2])
  {
    assert [t] + [D] == [t, D] && [GENERATOR] + vk1.Yhatn[..1] == [GENERATOR, vk1.Yhatn[0]];
    assert [u.t2] + [D, isk] == [u.t2, D, isk];
    assert [GENERATOR] + vk2.Yhatn[..2] == [GENERATOR, vk2.Yhatn[0], vk2.Yhatn[1]];
  }

  /** With valid credentials the proof passes for every randomization, zero scalars included. */
  lemma ValidCredentialsPass(sigma: Signature, sigmaBar: Signature, k: Scalar, t: Scalar, D: Scalar, isk: Scalar,
                             vk1: PublicKey, vk2: PublicKey, u: Randomness)
    requires |vk1.Yhatn| == |vk1.Yn| == 1 && |vk2.Yhatn| == |vk2.Yn| == 2
    requires Verifies(Some(sigma), [D], Some(vk1)) && Verifies(Some(sigmaBar), [D, isk], Some(vk2))
    ensures var p := HonestProof(Randomize(sigma, k, t), t, sigmaBar, D, isk, vk1, vk2, u);
            Verdict(ChallengeOf(vk1, vk2, p), vk1, vk2, p) == Ok(())
  {
    var p := HonestProof(Randomize(sigma, k, t), t, sigmaBar, D, isk, vk1, vk2, u);
    HonestResponsesPass(ChallengeOf(vk1, vk2, p), t, D, isk, vk1, vk2, u, p);
    CommitmentsSplit(t, D, isk, vk1, vk2, u);
    FitsIffRandomized(p.sign1, t, [D], p.C.C1, vk1);
    FitsIffRandomized(p.sign2, u.t2, [D, isk], p.C.C2, vk2);
    RandomizedVerifies(sigma, k, t, [D], vk1);
    RandomizedVerifies(sigmaBar, u.k2, u.t2, [D, isk], vk2);
  }

  /**
   The identity pair satisfies the signature equation on every attribute vector, as no check excludes it:
   a proof over it passes for any domain and any identity secret.
   */
  lemma IdentityPairPasses(k: Scalar, t: Scalar, D: Scalar, isk: Scalar, vk1: PublicKey, vk2: PublicKey, u: Randomness)
    requires |vk1.Yhatn| == |vk1.Yn| == 1 && |vk2.Yhatn| == |vk2.Yn| == 2
    ensures var p := HonestProof(Randomize(Signature(0, 0), k, t), t, Signature(0, 0), D, isk, vk1, vk2, u);
            Verdict(ChallengeOf(vk1, vk2, p), vk1, vk2, p) == Ok(())
  {
    MulOne(Add(vk1.Xhat, Combine([D], vk1.Yhatn[..1])));
    MulOne(Add(vk2.Xhat, Combine([D, isk], vk2.Yhatn[..2])));
    ValidCredentialsPass(Signature(0, 0), Signature(0, 0), k, t, D, isk, vk1, vk2, u);
  }

  // ---------------------------------------------------------------- soundness

  datatype Witness = Witness(t: Scalar, t2: Scalar, D: Scalar, sk: Scalar, e: Scalar)

  /**
   2-special soundness. Two transcripts with the same commitments, announcements and signatures that
   are accepted under different challenges yield one witness: a single D opens both C1 and C2, because
   zD is shared, sk opens C2 and e opens C3; and the two signatures, which the pairing checks tie to
   the commitments, are valid for that D and for (D, sk).
   */
  lemma TwoProofsYieldWitness(vk1: PublicKey, vk2: PublicKey, p: PoK, p': PoK, c: Scalar, c': Scalar)
    returns (w: Witness)
    requires |vk1.Yhatn| > 0 && |vk2.Yhatn| > 1
    requires p' == p.(Z := p'.Z) && c != c'
    requires Verdict(c, vk1, vk2, p).Ok? && Verdict(c', vk1, vk2, p').Ok?
    ensures p.C.C1 == Combine([w.t, w.D], [GENERATOR, vk1.Yhatn[0]])
    ensures p.C.C2 == Combine([w.t2, w.D, w.sk], [GENERATOR, vk2.Yhatn[0], vk2.Yhatn[1]])
    ensures p.C.C3 == ScalarMult(w.e, GENERATOR)
    ensures VerifiesRandomized(Some(p.sign1), w.t, [w.D], vk1)
    ensures VerifiesRandomized(Some(p.sign2), w.t2, [w.D, w.sk], vk2)
  {
    var Z, Z' := p.Z, p'.Z;
    w := Witness(Quotient(Z.z1, Z'.z1, c, c'), Quotient(Z.z2, Z'.z2, c, c'), Quotient(Z.zD, Z'.zD, c, c'),
                 Quotient(Z.zQsk, Z'.zQsk, c, c'), Quotient(Z.z3, Z'.z3, c, c'));
    Opening1(vk1, p, p', c, c', w);
    Opening2(vk2, p, p', c, c', w);
    Opening3(p, p', c, c', w);
    var u := Randomness(0, w.t2, 0, 0, 0, 0, 0, 0);
    CommitmentsSplit(w.t, w.D, w.sk, vk1, vk2, u);
    FitsIffRandomized(p.sign1, w.t, [w.D], p.C.C1, vk1);
    FitsIffRandomized(p.sign2, w.t2, [w.D, w.sk], p.C.C2, vk2);
  }

  /** The domain shown is the only one the signature is valid for, exactly when neither sigma1 nor y is zero. */
  lemma OneDomainPerSignature(sign: Signature, t: Scalar, D: Scalar, vk: PublicKey)
    requires |vk.Yhatn| > 0 && VerifiesRandomized(Some(sign), t, [D], vk)
    ensures (forall D': Scalar :: VerifiesRandomized(Some(sign), t, [D'], vk) ==> D' == D)
       <==> sign.sigma1 != 0 && vk.Yhatn[0] != 0
  {
    var x, y := Add(vk.Xhat, t), vk.Yhatn[0];
    assert vk.Yhatn[..1] == [y];
    if sign.sigma1 != 0 && y != 0 {
      BindsIff(sign.sigma1, x, y);
      forall D': Scalar | VerifiesRandomized(Some(sign), t, [D'], vk)
        ensures D' == D
      {
        assert IsSignature(Signature(sign.sigma1, sign.sigma2), [D'], x, [y]);
        assert IsSignature(Signature(sign.sigma1, sign.sigma2), [D], x, [y]);
      }
    } else {
      var other: Scalar := if D == 0 then 1 else 0;
      ValidOnBoth(sign, [D], [other], x, vk.Yhatn);
      OneTerm(D, y);
      OneTerm(other, y);
      MulOne(D);
      MulOne(other);
      assert VerifiesRandomized(Some(sign), t, [other], vk);
    }
  }

  function Quotient(z: Scalar, z': Scalar, c: Scalar, c': Scalar): Scalar {
    Mul(Inv(Sub(c, c')), Sub(z, z'))
  }

  lemma Opening1(vk1: PublicKey, p: PoK, p': PoK, c: Scalar, c': Scalar, w: Witness)
    requires |vk1.Yhatn| > 0 && p' == p.(Z := p'.Z) && c != c' && Accepts1(c, vk1, p) && Accepts1(c', vk1, p')
    requires w.t == Quotient(p.Z.z1, p'.Z.z1, c, c') && w.D == Quotient(p.Z.zD, p'.Z.zD, c, c')
    ensures p.C.C1 == Combine([w.t, w.D], [GENERATOR, vk1.Yhatn[0]])
  {
    ExtractedOpens([p.Z.z1, p.Z.zD], [p'.Z.z1, p'.Z.zD], [GENERATOR, vk1.Yhatn[0]], p.R.R1, c, c', p.C.C1);
    assert Extracted([p.Z.z1, p.Z.zD], [p'.Z.z1, p'.Z.zD], c, c') == [w.t, w.D];
  }

  lemma Opening2(vk2: PublicKey, p: PoK, p': PoK, c: Scalar, c': Scalar, w: Witness)
    requires |vk2.Yhatn| > 1 && p' == p.(Z := p'.Z) && c != c' && Accepts2(c, vk2, p) && Accepts2(c', vk2, p')
    requires w.t2 == Quotient(p.Z.z2, p'.Z.z2, c, c') && w.D == Quotient(p.Z.zD, p'.Z.zD, c, c')
    requires w.sk == Quotient(p.Z.zQsk, p'.Z.zQsk, c, c')
    ensures p.C.C2 == Combine([w.t2, w.D, w.sk], [GENERATOR, vk2.Yhatn[0], vk2.Yhatn[1]])
  {
    var zs, zs' := [p.Z.z2, p.Z.zD, p.Z.zQsk], [p'.Z.z2, p'.Z.zD, p'.Z.zQsk];
    ExtractedOpens(zs, zs', [GENERATOR, vk2.Yhatn[0], vk2.Yhatn[1]], p.R.R2, c, c', p.C.C2);
    assert Extracted(zs, zs', c, c') == [w.t2, w.D, w.sk];
  }

  lemma Opening3(p: PoK, p': PoK, c: Scalar, c': Scalar, w: Witness)
    requires p' == p.(Z := p'.Z) && c != c' && Accepts3(c, p) && Accepts3(c', p')
    requires w.e == Quotient(p.Z.z3, p'.Z.z3, c, c')
    ensures p.C.C3 == ScalarMult(w.e, GENERATOR)
  {
    ExtractedOpens([p.Z.z3], [p'.Z.z3], [GENERATOR], p.R.R3, c, c', p.C.C3);
    assert Extracted([p.Z.z3], [p'.Z.z3], c, c') == [w.e];
    assert [w.e][..0] == [] && [GENERATOR][..0] == [];
    MulOne(w.e);
  }
}

/** Blind issuance and presentation of anonymous credentials (lib/anonyCred.go). */
module AnonCred {
  import opened Wrappers
  import opened Field
  import opened MultiExp
  import opened PSSig
  import NIZK

  datatype CredError =
    | LengthMismatch | MissingIssuerKey | InvalidInputs | MissingElements | ProofRejected
    | CommitmentProofFailed | SignatureFailed

  // ---------------------------------------------------------------- blind issuance

  /** The request for blinding factor d and proof randomness r0, rs. */
  function BlindRequest(hidden: seq<Scalar>, Yh: seq<G1>, d: Scalar, r0: Scalar, rs: seq<Scalar>): NIZK.MultiExpProof
    requires |hidden| == |Yh| == |rs|
  {
    NIZK.Proof(d, hidden, Combine([d] + hidden, [GENERATOR] + Yh), GENERATOR, Yh, r0, rs)
  }

  /** The request written out: the commitment is blinded by d, and the proof by its own randomness. */
  lemma RequestWrittenOut(hidden: seq<Scalar>, Yh: seq<G1>, d: Scalar, r0: Scalar, rs: seq<Scalar>)
    requires |hidden| == |Yh| == |rs|
    ensures var req := BlindRequest(hidden, Yh, d, r0, rs);
            var c := NIZK.ChallengeHash(NIZK.Transcript(Yh, req.C1, req.R1));
            && req.C1 == Add(d, Combine(hidden, Yh)) && req.R1 == Add(r0, Combine(rs, Yh)) && |req.Zs| == |hidden|
            && req.Z0 == Add(Mul(c, d), r0)
            && forall i | 0 <= i < |hidden| :: req.Zs[i] == Add(Mul(c, hidden[i]), rs[i])
  {
    NIZK.ProofWrittenOut(d, hidden, Combine([d] + hidden, [GENERATOR] + Yh), GENERATOR, Yh, r0, rs);
    CombineCons(d, GENERATOR, hidden, Yh);
    MulOne(d);
    MulOne(r0);
  }

  /** The commitment hides the attributes: it fits every other tuple of them, with exactly one blinding factor. */
  lemma CommitmentFitsEveryAttributes(hidden: seq<Scalar>, hidden': seq<Scalar>, Yh: seq<G1>, d: Scalar, d': Scalar,
                                      r0: Scalar, rs: seq<Scalar>)
    requires |hidden| == |hidden'| == |Yh| == |rs|
    ensures BlindRequest(hidden, Yh, d, r0, rs).C1 == BlindRequest(hidden', Yh, d', r0, rs).C1
       <==> d' == Sub(Add(d, Combine(hidden, Yh)), Combine(hidden', Yh))
  {
    RequestWrittenOut(hidden, Yh, d, r0, rs);
    RequestWrittenOut(hidden', Yh, d', r0, rs);
    Transpose(Combine(hidden', Yh), d', Add(d, Combine(hidden, Yh)));
  }

  /** `Yh` is `None` for a nil slice. */
  method PrepareBlindSign(hiddenAttrs: seq<Scalar>, Yh: Option<seq<G1>>, d: Scalar, r0: Scalar, rs: seq<Scalar>)
    returns (r: Result<(NIZK.MultiExpProof, Scalar), CredError>)
    requires |rs| == |hiddenAttrs|
    ensures r == if |hiddenAttrs| != (if Yh.None? then 0 else |Yh.value|) then Err(LengthMismatch)
                 else if Yh.None? then Err(MissingIssuerKey)
                 else Ok((BlindRequest(hiddenAttrs, Yh.value, d, r0, rs), d))
  {
    if |hiddenAttrs| != (if Yh.None? then 0 else |Yh.value|) { return Err(LengthMismatch); }
    if Yh.None? { return Err(MissingIssuerKey); }
    var bases := Yh.value;
    var Ci := ScalarMult(d, GENERATOR);
    for i := 0 to |hiddenAttrs|
      invariant Ci == Add(ScalarMult(d, GENERATOR), Combine(hiddenAttrs[..i], bases[..i]))
    {
      CombineStep(hiddenAttrs, bases, i);
      var term := ScalarMult(hiddenAttrs[i], bases[i]);
      AddAssoc(ScalarMult(d, GENERATOR), Combine(hiddenAttrs[..i], bases[..i]), term);
      Ci := Add(Ci, term);
    }
    assert hiddenAttrs[..|hiddenAttrs|] == hiddenAttrs && bases[..|bases|] == bases;
    CombineCons(d, GENERATOR, hiddenAttrs, bases);
    var proof := NIZK.ProveMultiExp(Some(d), hiddenAttrs, Some(Ci), Some(GENERATOR), bases, r0, rs);
    return Ok((proof.value, d));
  }

  /** The issuer signs r * (X + C1 + sum a_k * Y_k) over r. */
  function BlindSignature(X: G1, C1: G1, publicAttrs: seq<Scalar>, Yn: seq<G1>, r: Scalar): Signature
    requires |publicAttrs| <= |Yn|
  {
    Signature(r, ScalarMult(r, Add(Add(X, C1), Combine(publicAttrs, Yn[..|publicAttrs|]))))
  }

  /** A request as the issuer receives it: nil, one with nil elements, or a complete one. */
  datatype Received = NilRequest | Incomplete | Complete(proof: NIZK.MultiExpProof)

  method BlindSign(sk: Option<SecretKey>, vk: Option<PublicKey>, req: Received,
                   publicAttrs: seq<Scalar>, r: Scalar)
    returns (res: Result<Signature, CredError>)
    requires vk.Some? ==> |publicAttrs| <= |vk.value.Yn|
    ensures if sk.None? || req.NilRequest? || vk.None? || sk.value.X.None? then res == Err(InvalidInputs)
            else if req.Incomplete? then res == Err(MissingElements)
            else
              var Yh := vk.value.Yn[|publicAttrs|..];
              if |Yh| != |req.proof.Zs| then res == Err(LengthMismatch)
              else if !NIZK.Verifies(GENERATOR, Yh, req.proof) then res == Err(ProofRejected)
              else res == Ok(BlindSignature(sk.value.X.value, req.proof.C1, publicAttrs, vk.value.Yn, r))
    ensures res.Ok? ==>
              var whole := Add(Add(sk.value.X.value, req.proof.C1), Combine(publicAttrs, vk.value.Yn[..|publicAttrs|]));
              res.value.sigma1 == r && res.value.sigma2 == ScalarMult(r, whole)
  {
    if sk.None? || req.NilRequest? || vk.None? || sk.value.X.None? { return Err(InvalidInputs); }
    if req.Incomplete? { return Err(MissingElements); }
    var Yn := vk.value.Yn;
    var Yh := Yn[|publicAttrs|..];
    if |Yh| != |req.proof.Zs| { return Err(LengthMismatch); }
    var ok := NIZK.VerifyMultiExp(Some(GENERATOR), Yh, Some(req.proof));
    if ok.Err? || !ok.value { return Err(ProofRejected); }
    MulOne(r);
    var sigma1 := ScalarMult(r, GENERATOR);
    var start := Add(sk.value.X.value, req.proof.C1);
    var Pprime := start;
    for k := 0 to |publicAttrs|
      invariant Pprime == Add(start, Combine(publicAttrs[..k], Yn[..k]))
    {
      CombineStep(publicAttrs, Yn, k);
      var term := ScalarMult(publicAttrs[k], Yn[k]);
      AddAssoc(start, Combine(publicAttrs[..k], Yn[..k]), term);
      Pprime := Add(Pprime, term);
    }
    assert publicAttrs[..|publicAttrs|] == publicAttrs;
    var sigma2 := ScalarMult(r, Pprime);
    return Ok(Signature(sigma1, sigma2));
  }

  function Unblinded(hatSigma: Signature, d: Scalar): Signature {
    Signature(hatSigma.sigma1, Sub(hatSigma.sigma2, ScalarMult(d, hatSigma.sigma1)))
  }

  method Unblind(hatSigma: Option<Signature>, d: Option<Scalar>) returns (r: Result<Signature, CredError>)
    ensures r == if hatSigma.None? || d.None? then Err(InvalidInputs) else Ok(Unblinded(hatSigma.value, d.value))
    ensures r.Ok? ==>
              && r.value.sigma1 == hatSigma.value.sigma1
              && Add(r.value.sigma2, ScalarMult(d.value, r.value.sigma1)) == hatSigma.value.sigma2
  {
    if hatSigma.None? || d.None? { return Err(InvalidInputs); }
    var temp := ScalarMult(d.value, hatSigma.value.sigma1);
    var negTemp := Neg(temp);
    var sigma2 := Add(hatSigma.value.sigma2, negTemp);
    return Ok(Signature(hatSigma.value.sigma1, sigma2));
  }

  /** Sums over public and hidden attributes together make up the whole vector. */
  lemma SplitAttributes(pub: seq<Scalar>, hidden: seq<Scalar>, ys: seq<Scalar>)
    requires |pub| + |hidden| == |ys|
    ensures ys[..|pub + hidden|] == ys[..|pub|] + ys[|pub|..]
    ensures Combine(pub + hidden, ys[..|pub + hidden|])
         == Add(Combine(pub, ys[..|pub|]), Combine(hidden, ys[|pub|..]))
  {
    assert ys[..|pub + hidden|] == ys[..|pub|] + ys[|pub|..];
    CombineConcat(pub, ys[..|pub|], hidden, ys[|pub|..]);
  }

  /**
   Blind issuance round trip. For any split of the attribute vector into public and hidden ones: the
   issuer accepts every honest request, and the unblinded answer is a signature on public ++ hidden.
   */
  lemma BlindIssuanceRoundTrip(sk: SecretKey, vk: PublicKey, pub: seq<Scalar>, hidden: seq<Scalar>,
                               d: Scalar, r0: Scalar, rs: seq<Scalar>, r: Scalar)
    requires Match(sk, vk) && |pub| + |hidden| == |sk.yn| && |rs| == |hidden|
    ensures var Yh := vk.Yn[|pub|..];
            var req := BlindRequest(hidden, Yh, d, r0, rs);
            var sigma := Unblinded(BlindSignature(sk.X.value, req.C1, pub, vk.Yn, r), d);
            && |req.Zs| == |Yh| && NIZK.Verifies(GENERATOR, Yh, req)
            && PSSig.Verifies(Some(sigma), pub + hidden, Some(vk))
            && sigma.sigma1 == r
            && sigma.sigma2 == ScalarMult(Add(sk.x, Combine(pub + hidden, sk.yn[..|pub + hidden|])), r)
  {
    var Yh := vk.Yn[|pub|..];
    var req := BlindRequest(hidden, Yh, d, r0, rs);
    HonestRequestVerifies(hidden, Yh, d, r0, rs);
    SplitAttributes(pub, hidden, vk.Yn);
    var whole := Add(sk.x, Combine(pub + hidden, vk.Yn[..|pub + hidden|]));
    assert Add(Add(sk.x, req.C1), Combine(pub, vk.Yn[..|pub|])) == Add(whole, d);
    BlindingComesOut(r, whole, d);
  }

  lemma HonestRequestVerifies(hidden: seq<Scalar>, Yh: seq<G1>, d: Scalar, r0: Scalar, rs: seq<Scalar>)
    requires |hidden| == |Yh| == |rs|
    ensures var req := BlindRequest(hidden, Yh, d, r0, rs);
            NIZK.Verifies(GENERATOR, Yh, req) && req.C1 == Add(d, Combine(hidden, Yh))
  {
    var req := BlindRequest(hidden, Yh, d, r0, rs);
    NIZK.ProofVerifiesIffOpening(d, hidden, req.C1, GENERATOR, Yh, r0, rs);
    CombineCons(d, GENERATOR, hidden, Yh);
    MulOne(d);
  }

  lemma BlindingComesOut(r: Scalar, whole: Scalar, d: Scalar)
    ensures Sub(ScalarMult(r, Add(whole, d)), ScalarMult(d, r)) == ScalarMult(whole, r)
  {
    Distribute(r, whole, d);
    MulComm(d, r);
    MulComm(whole, r);
  }

  // ---------------------------------------------------------------- presentation

  datatype Presentation =
    Presentation(sigma: Signature, C: G2, R: G2, Z0: Scalar, Zs: seq<Scalar>, context: Option<seq<bv8>>)

  datatype Transcript = Transcript(Yhatn: seq<G2>, C: G2, R: G2, context: Option<seq<bv8>>)

  const PresentationHash: Transcript -> Scalar

  function Present(sigma: Signature, t: Scalar, hidden: seq<Scalar>, r: seq<Scalar>, Yhatn: seq<G2>,
                   context: Option<seq<bv8>>, r0: Scalar): Presentation
    requires |hidden| == |r| == |Yhatn|
  {
    var C2, R2 := Combine([t] + hidden, [GENERATOR] + Yhatn), Combine([r0] + r, [GENERATOR] + Yhatn);
    var zs := Responses(PresentationHash(Transcript(Yhatn, C2, R2, context)), [t] + hidden, [r0] + r);
    Presentation(sigma, C2, R2, zs[0], zs[1..], context)
  }

  /** The presentation written out: every random value enters, and the context is hashed along. */
  lemma PresentationWrittenOut(sigma: Signature, t: Scalar, hidden: seq<Scalar>, r: seq<Scalar>, Yhatn: seq<G2>,
                               context: Option<seq<bv8>>, r0: Scalar)
    requires |hidden| == |r| == |Yhatn|
    ensures var ap := Present(sigma, t, hidden, r, Yhatn, context, r0);
            var c := PresentationHash(Transcript(Yhatn, ap.C, ap.R, context));
            && ap.sigma == sigma && ap.context == context && |ap.Zs| == |hidden|
            && ap.C == Add(t, Combine(hidden, Yhatn)) && ap.R == Add(r0, Combine(r, Yhatn))
            && ap.Z0 == Add(Mul(c, t), r0) && forall i | 0 <= i < |hidden| :: ap.Zs[i] == Add(Mul(c, hidden[i]), r[i])
  {
    CombineCons(t, GENERATOR, hidden, Yhatn);
    CombineCons(r0, GENERATOR, r, Yhatn);
    MulOne(t);
    MulOne(r0);
    var ap := Present(sigma, t, hidden, r, Yhatn, context, r0);
    var c := PresentationHash(Transcript(Yhatn, ap.C, ap.R, context));
    var ws, us := [t] + hidden, [r0] + r;
    forall i | 0 <= i < |hidden|
      ensures ap.Zs[i] == Add(Mul(c, hidden[i]), r[i])
    {
      assert Responses(c, ws, us)[i + 1] == Add(Mul(c, ws[i + 1]), us[i + 1]);
    }
  }

  method AnoyCredPresent(sigma: Signature, t: Scalar, hiddenAttrs: seq<Scalar>, r: seq<Scalar>, vk: PublicKey,
                         context: Option<seq<bv8>>, r0: Scalar)
    returns (res: Result<Presentation, CredError>)
    ensures res == if |hiddenAttrs| != |r| || |hiddenAttrs| != |vk.Yhatn| then Err(LengthMismatch)
                   else Ok(Present(sigma, t, hiddenAttrs, r, vk.Yhatn, context, r0))
  {
    if |hiddenAttrs| != |r| || |hiddenAttrs| != |vk.Yhatn| { return Err(LengthMismatch); }
    var C2 := NIZK.WeightedSum(t, GENERATOR, hiddenAttrs, vk.Yhatn);
    var R2 := NIZK.WeightedSum(r0, GENERATOR, r, vk.Yhatn);
    var c := PresentationHash(Transcript(vk.Yhatn, C2, R2, context));
    var z0 := Mul(c, t);
    z0 := Add(z0, r0);
    var zs := seq(|hiddenAttrs|, _ => 0);
    for i := 0 to |hiddenAttrs|
      invariant |zs| == |hiddenAttrs|
      invariant forall k | 0 <= k < i :: zs[k] == Add(Mul(c, hiddenAttrs[k]), r[k])
    {
      zs := zs[i := Mul(c, hiddenAttrs[i])];
      zs := zs[i := Add(zs[i], r[i])];
    }
    assert Responses(c, [t] + hiddenAttrs, [r0] + r) == [z0] + zs;
    return Ok(Presentation(sigma, C2, R2, z0, zs, context));
  }

  function ChallengeOf(ap: Presentation, vk: PublicKey): Scalar {
    PresentationHash(Transcript(vk.Yhatn, ap.C, ap.R, ap.context))
  }

  /** The commitment proof under a given challenge. */
  ghost predicate ProofAccepts(ap: Presentation, c: Scalar, vk: PublicKey)
    requires |ap.Zs| == |vk.Yhatn|
  {
    Accepts([ap.Z0] + ap.Zs, [GENERATOR] + vk.Yhatn, ap.R, c, ap.C)
  }

  ghost predicate SignatureAccepts(ap: Presentation, vk: PublicKey) {
    ap.sigma.sigma2 == ScalarMult(Add(vk.Xhat, ap.C), ap.sigma.sigma1)
  }

  /** Both checks written out, the first under the hash of key, commitment, announcement and context. */
  lemma PresentationAcceptedIff(ap: Presentation, vk: PublicKey)
    requires |ap.Zs| == |vk.Yhatn|
    ensures var c := PresentationHash(Transcript(vk.Yhatn, ap.C, ap.R, ap.context));
            ProofAccepts(ap, ChallengeOf(ap, vk), vk)
            <==> Add(ap.Z0, Combine(ap.Zs, vk.Yhatn)) == Add(ap.R, ScalarMult(c, ap.C))
    ensures SignatureAccepts(ap, vk)
       <==> Pair(ap.sigma.sigma2, GENERATOR) == Pair(ap.sigma.sigma1, Add(vk.Xhat, ap.C))
  {
    CombineCons(ap.Z0, GENERATOR, ap.Zs, vk.Yhatn);
    MulOne(ap.Z0);
    MulComm(ap.sigma.sigma1, Add(vk.Xhat, ap.C));
    MulOne(ap.sigma.sigma2);
  }

  method VerifyAnoyCredPresent(ap: Option<Presentation>, vk: Option<PublicKey>) returns (r: Result<bool, CredError>)
    ensures if ap.None? || vk.None? then r == Err(InvalidInputs)
            else if |ap.value.Zs| != |vk.value.Yhatn| then r == Err(LengthMismatch)
            else if !ProofAccepts(ap.value, ChallengeOf(ap.value, vk.value), vk.value) then
              r == Err(CommitmentProofFailed)
            else r == if SignatureAccepts(ap.value, vk.value) then Ok(true) else Err(SignatureFailed)
  {
    if ap.None? || vk.None? { return Err(InvalidInputs); }
    var Presentation(sigma, C, R, Z0, Zs, context) := ap.value;
    if |Zs| != |vk.value.Yhatn| { return Err(LengthMismatch); }
    var c := PresentationHash(Transcript(vk.value.Yhatn, C, R, context));
    var left := NIZK.WeightedSum(Z0, GENERATOR, Zs, vk.value.Yhatn);
    var right := ScalarMult(c, C);
    right := Add(right, R);
    if left != right { return Err(CommitmentProofFailed); }
    var XhatC2 := Add(vk.value.Xhat, C);
    var e1 := Pair(sigma.sigma2, GENERATOR);
    var e2 := Pair(sigma.sigma1, XhatC2);
    MulOne(sigma.sigma2);
    MulComm(sigma.sigma1, XhatC2);
    if e1 != e2 { return Err(SignatureFailed); }
    return Ok(true);
  }

  /**
   Presentation, exactly: showing a signature with blinding t passes iff the signature is valid on the
   hidden attributes once randomized by t; so a randomized credential always shows.
   */
  lemma PresentationPassesIffSignature(sigma: Signature, t: Scalar, hidden: seq<Scalar>, r: seq<Scalar>,
                                       vk: PublicKey, context: Option<seq<bv8>>, r0: Scalar)
    requires |hidden| == |r| == |vk.Yhatn|
    ensures var ap := Present(sigma, t, hidden, r, vk.Yhatn, context, r0);
            && |ap.Zs| == |vk.Yhatn|
            && ProofAccepts(ap, ChallengeOf(ap, vk), vk)
            && (SignatureAccepts(ap, vk) <==> VerifiesRandomized(Some(sigma), t, hidden, vk))
  {
    var ws, us, bs := [t] + hidden, [r0] + r, [GENERATOR] + vk.Yhatn;
    var c := PresentationHash(Transcript(vk.Yhatn, Combine(ws, bs), Combine(us, bs), context));
    var zs := Responses(c, ws, us);
    assert [zs[0]] + zs[1..] == zs;
    HonestResponsesAccepted(ws, us, bs, c);
    CombineCons(t, GENERATOR, hidden, vk.Yhatn);
    MulOne(t);
    assert vk.Yhatn[..|hidden|] == vk.Yhatn;
    assert Add(vk.Xhat, Add(t, Combine(hidden, vk.Yhatn))) == Add(Add(vk.Xhat, t), Combine(hidden, vk.Yhatn));
  }

  /**
   Two accepting showings of one commitment and announcement under different challenges open it, and
   the signature shown is then valid, randomized by the opening, on the attributes they determine.
   */
  lemma TwoShowingsYieldCredential(ap: Presentation, ap': Presentation, c: Scalar, c': Scalar, vk: PublicKey)
    returns (t: Scalar, hidden: seq<Scalar>)
    requires |ap.Zs| == |ap'.Zs| == |vk.Yhatn| && ap.C == ap'.C && ap.R == ap'.R && c != c'
    requires ProofAccepts(ap, c, vk) && ProofAccepts(ap', c', vk) && SignatureAccepts(ap, vk)
    ensures |hidden| == |vk.Yhatn| && VerifiesRandomized(Some(ap.sigma), t, hidden, vk)
  {
    var zs, zs', bs := [ap.Z0] + ap.Zs, [ap'.Z0] + ap'.Zs, [GENERATOR] + vk.Yhatn;
    ExtractedOpens(zs, zs', bs, ap.R, c, c', ap.C);
    var ws := Extracted(zs, zs', c, c');
    t, hidden := ws[0], ws[1..];
    assert [t] + hidden == ws;
    CombineCons(t, GENERATOR, hidden, vk.Yhatn);
    MulOne(t);
    assert vk.Yhatn[..|hidden|] == vk.Yhatn;
    assert Add(vk.Xhat, Add(t, Combine(hidden, vk.Yhatn))) == Add(Add(vk.Xhat, t), Combine(hidden, vk.Yhatn));
  }
}

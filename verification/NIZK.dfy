/** The multi-exponent proof of knowledge (lib/NIZK.go). */
module NIZK {
  import opened Wrappers
  import opened Field
  import opened MultiExp

  datatype Error = InvalidInputs | LengthMismatch

  datatype MultiExpProof = MultiExpProof(C1: G1, R1: G1, Z0: Scalar, Zs: seq<Scalar>)

  /** What is fed to the hash: the bases, the commitment and the announcement. */
  datatype Transcript = Transcript(Ys: seq<G1>, P: G1, R: G1)

  /** The hash onto scalars is left open. */
  const ChallengeHash: Transcript -> Scalar

  /** Honest proof values for randomness r0, rs, under a given challenge. */
  function Proof(alpha: Scalar, betas: seq<Scalar>, C: G1, g1: G1, Ys: seq<G1>, r0: Scalar, rs: seq<Scalar>)
    : MultiExpProof
    requires |betas| == |Ys| == |rs|
  {
    var R1 := Combine([r0] + rs, [g1] + Ys);
    var zs := Responses(ChallengeHash(Transcript(Ys, C, R1)), [alpha] + betas, [r0] + rs);
    MultiExpProof(C, R1, zs[0], zs[1..])
  }

  /**
   The proof written out: the announcement commits to the randomness alone, the challenge is the hash of
   bases, commitment and announcement, and every response adds the randomness to challenge times witness.
   */
  lemma ProofWrittenOut(alpha: Scalar, betas: seq<Scalar>, C: G1, g1: G1, Ys: seq<G1>, r0: Scalar, rs: seq<Scalar>)
    requires |betas| == |Ys| == |rs|
    ensures var p := Proof(alpha, betas, C, g1, Ys, r0, rs);
            var c := ChallengeHash(Transcript(Ys, C, p.R1));
            && p.C1 == C && p.R1 == Add(ScalarMult(r0, g1), Combine(rs, Ys)) && |p.Zs| == |betas|
            && p.Z0 == Add(Mul(c, alpha), r0)
            && forall i | 0 <= i < |betas| :: p.Zs[i] == Add(Mul(c, betas[i]), rs[i])
  {
    CombineCons(r0, g1, rs, Ys);
    var p := Proof(alpha, betas, C, g1, Ys, r0, rs);
    var c := ChallengeHash(Transcript(Ys, C, p.R1));
    var ws, us := [alpha] + betas, [r0] + rs;
    forall i | 0 <= i < |betas|
      ensures p.Zs[i] == Add(Mul(c, betas[i]), rs[i])
    {
      assert Responses(c, ws, us)[i + 1] == Add(Mul(c, ws[i + 1]), us[i + 1]);
    }
  }

  /** `alpha` and `C` are `None` for nil. */
  method ProveMultiExp(alpha: Option<Scalar>, betas: seq<Scalar>, C: Option<G1>, g1: Option<G1>, Ys: seq<G1>,
                       r0: Scalar, rs: seq<Scalar>)
    returns (r: Result<MultiExpProof, Error>)
    requires |rs| == |betas|
    ensures r == if alpha.None? || C.None? || g1.None? then Err(InvalidInputs)
                 else if |betas| != |Ys| then Err(LengthMismatch)
                 else Ok(Proof(alpha.value, betas, C.value, g1.value, Ys, r0, rs))
  {
    if alpha.None? || C.None? || g1.None? { return Err(InvalidInputs); }
    if |betas| != |Ys| { return Err(LengthMismatch); }
    var R1 := WeightedSum(r0, g1.value, rs, Ys);
    var c := ChallengeHash(Transcript(Ys, C.value, R1));
    var z0 := Mul(c, alpha.value);
    z0 := Add(z0, r0);
    var zs := seq(|betas|, _ => 0);
    for i := 0 to |betas|
      invariant |zs| == |betas|
      invariant forall k | 0 <= k < i :: zs[k] == Add(Mul(c, betas[k]), rs[k])
    {
      zs := zs[i := Mul(c, betas[i])];
      zs := zs[i := Add(zs[i], rs[i])];
    }
    ghost var expected := Responses(c, [alpha.value] + betas, [r0] + rs);
    assert expected == [z0] + zs;
    return Ok(MultiExpProof(C.value, R1, z0, zs));
  }

  /** The accumulator loop of prover and verifier: z0 * g1 plus the sum of zs_i * Ys_i. */
  method WeightedSum(z0: Scalar, g1: G1, zs: seq<Scalar>, Ys: seq<G1>) returns (sum: G1)
    requires |zs| == |Ys|
    ensures sum == Combine([z0] + zs, [g1] + Ys)
  {
    sum := ScalarMult(z0, g1);
    assert Combine(zs[..0], Ys[..0]) == 0;
    for i := 0 to |zs|
      invariant sum == Add(ScalarMult(z0, g1), Combine(zs[..i], Ys[..i]))
    {
      CombineStep(zs, Ys, i);
      var tmp := ScalarMult(zs[i], Ys[i]);
      AddAssoc(ScalarMult(z0, g1), Combine(zs[..i], Ys[..i]), tmp);
      sum := Add(sum, tmp);
    }
    assert zs[..|zs|] == zs && Ys[..|Ys|] == Ys;
    CombineCons(z0, g1, zs, Ys);
  }

  /** The verification equation under a given challenge. */
  ghost predicate AcceptsUnder(c: Scalar, g1: G1, Ys: seq<G1>, p: MultiExpProof)
    requires |p.Zs| == |Ys|
  {
    Accepts([p.Z0] + p.Zs, [g1] + Ys, p.R1, c, p.C1)
  }

  ghost predicate Verifies(g1: G1, Ys: seq<G1>, p: MultiExpProof) {
    |p.Zs| == |Ys| && AcceptsUnder(ChallengeHash(Transcript(Ys, p.C1, p.R1)), g1, Ys, p)
  }

  /** Acceptance written out, under the hash of bases, commitment and announcement. */
  lemma VerifiesIff(g1: G1, Ys: seq<G1>, p: MultiExpProof)
    ensures Verifies(g1, Ys, p)
       <==> && |p.Zs| == |Ys|
            && Add(ScalarMult(p.Z0, g1), Combine(p.Zs, Ys))
               == Add(p.R1, ScalarMult(ChallengeHash(Transcript(Ys, p.C1, p.R1)), p.C1))
  {
    if |p.Zs| == |Ys| {
      CombineCons(p.Z0, g1, p.Zs, Ys);
    }
  }

  method VerifyMultiExp(g1: Option<G1>, Ys: seq<G1>, proof: Option<MultiExpProof>) returns (r: Result<bool, Error>)
    ensures if g1.None? || proof.None? then r == Err(InvalidInputs)
            else if |proof.value.Zs| != |Ys| then r == Err(LengthMismatch)
            else r.Ok? && (r.value <==> Verifies(g1.value, Ys, proof.value))
  {
    if proof.None? || g1.None? { return Err(InvalidInputs); }
    var MultiExpProof(C1, R1, Z0, Zs) := proof.value;
    if |Zs| != |Ys| { return Err(LengthMismatch); }
    var c := ChallengeHash(Transcript(Ys, C1, R1));
    var left := WeightedSum(Z0, g1.value, Zs, Ys);
    var C1c := ScalarMult(c, C1);
    var right := Add(R1, C1c);
    return Ok(left == right);
  }

  /**
   Completeness, exactly: a proof made with any randomness, for any number of bases, is accepted iff
   the commitment really is alpha * g1 + sum betas_i * Ys_i, or the challenge happens to be zero.
   */
  lemma ProofVerifiesIffOpening(alpha: Scalar, betas: seq<Scalar>, C: G1, g1: G1, Ys: seq<G1>,
                                r0: Scalar, rs: seq<Scalar>)
    requires |betas| == |Ys| == |rs|
    ensures var p := Proof(alpha, betas, C, g1, Ys, r0, rs);
            Verifies(g1, Ys, p)
            <==> C == Combine([alpha] + betas, [g1] + Ys) || ChallengeHash(Transcript(Ys, C, p.R1)) == 0
  {
    var ws, us, bs := [alpha] + betas, [r0] + rs, [g1] + Ys;
    var R1 := Combine(us, bs);
    var c := ChallengeHash(Transcript(Ys, C, R1));
    var zs := Responses(c, ws, us);
    assert [zs[0]] + zs[1..] == zs;
    HonestResponsesAccepted(ws, us, bs, c);
    MulOne(C);
    MulOne(Combine(ws, bs));
    if c != 0 {
      MulCancel(C, Combine(ws, bs), c);
    }
  }

  /**
   Special soundness: two transcripts with equal commitment and announcement that accept under
   different challenges determine an opening of the commitment, for any number of bases.
   */
  lemma TwoTranscriptsOpen(g1: G1, Ys: seq<G1>, p: MultiExpProof, p': MultiExpProof, c: Scalar, c': Scalar)
    returns (alpha: Scalar, betas: seq<Scalar>)
    requires |p.Zs| == |p'.Zs| == |Ys| && p.C1 == p'.C1 && p.R1 == p'.R1 && c != c'
    requires AcceptsUnder(c, g1, Ys, p) && AcceptsUnder(c', g1, Ys, p')
    ensures |betas| == |Ys| && p.C1 == Add(ScalarMult(alpha, g1), Combine(betas, Ys))
  {
    var ws := Extracted([p.Z0] + p.Zs, [p'.Z0] + p'.Zs, c, c');
    ExtractedOpens([p.Z0] + p.Zs, [p'.Z0] + p'.Zs, [g1] + Ys, p.R1, c, c', p.C1);
    alpha, betas := ws[0], ws[1..];
    assert [alpha] + betas == ws;
    CombineCons(alpha, g1, betas, Ys);
  }
}

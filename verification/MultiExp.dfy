/**
 Linear combinations of points, the one shape behind every commitment, response and verification
 key equation of the credential layer, and the two facts every such proof of knowledge rests on:
 honest responses satisfy the equation, and two of them for one announcement give the opening away.
 */
module MultiExp {
  import opened Field

  /** z_0 * B_0 + z_1 * B_1 + ... */
  function Combine(zs: seq<Scalar>, bases: seq<Scalar>): Scalar
    requires |zs| == |bases|
  {
    if zs == [] then 0
    else
      var n := |zs| - 1;
      Add(Combine(zs[..n], bases[..n]), ScalarMult(zs[n], bases[n]))
  }

  /** The combination of the first `n + 1` terms, as a loop over the terms builds it. */
  lemma CombineStep(zs: seq<Scalar>, bases: seq<Scalar>, n: nat)
    requires n < |zs| && n < |bases|
    ensures Combine(zs[..n + 1], bases[..n + 1]) == Add(Combine(zs[..n], bases[..n]), ScalarMult(zs[n], bases[n]))
  {
    assert zs[..n + 1][..n] == zs[..n] && bases[..n + 1][..n] == bases[..n];
  }

  lemma {:induction false} CombineConcat(zs: seq<Scalar>, bases: seq<Scalar>, zs': seq<Scalar>, bases': seq<Scalar>)
    requires |zs| == |bases| && |zs'| == |bases'|
    ensures Combine(zs + zs', bases + bases') == Add(Combine(zs, bases), Combine(zs', bases'))
  {
    if zs' == [] {
      assert zs + zs' == zs && bases + bases' == bases;
    } else {
      var n := |zs'| - 1;
      assert (zs + zs')[..|zs| + n] == zs + zs'[..n] && (bases + bases')[..|zs| + n] == bases + bases'[..n];
      CombineConcat(zs, bases, zs'[..n], bases'[..n]);
      AddAssoc(Combine(zs, bases), Combine(zs'[..n], bases'[..n]), ScalarMult(zs'[n], bases'[n]));
    }
  }

  /** A combination with a first term set apart. */
  lemma CombineCons(z: Scalar, b: Scalar, zs: seq<Scalar>, bases: seq<Scalar>)
    requires |zs| == |bases|
    ensures Combine([z] + zs, [b] + bases) == Add(ScalarMult(z, b), Combine(zs, bases))
  {
    assert [z][..0] == [] && [b][..0] == [];
    CombineConcat([z], [b], zs, bases);
  }

  /** The responses c * w_i + r_i to a challenge. */
  function Responses(c: Scalar, ws: seq<Scalar>, rs: seq<Scalar>): (zs: seq<Scalar>)
    requires |ws| == |rs|
    ensures |zs| == |ws|
  {
    seq(|ws|, i requires 0 <= i < |ws| => Add(Mul(c, ws[i]), rs[i]))
  }

  /** A verifier's equation: the responses open announcement plus challenge times commitment. */
  ghost predicate Accepts(zs: seq<Scalar>, bases: seq<Scalar>, announcement: Scalar, c: Scalar, commitment: Scalar)
    requires |zs| == |bases|
  {
    Combine(zs, bases) == Add(announcement, ScalarMult(c, commitment))
  }

  /** Completeness: honest responses to any challenge are accepted, for any number of bases. */
  lemma {:induction false} HonestResponsesAccepted(ws: seq<Scalar>, rs: seq<Scalar>, bases: seq<Scalar>, c: Scalar)
    requires |ws| == |rs| == |bases|
    ensures Accepts(Responses(c, ws, rs), bases, Combine(rs, bases), c, Combine(ws, bases))
  {
    if ws == [] {
      MulOne(c);
    } else {
      var n := |ws| - 1;
      HonestResponsesAccepted(ws[..n], rs[..n], bases[..n], c);
      assert Responses(c, ws, rs)[..n] == Responses(c, ws[..n], rs[..n]);
      var w, r := Combine(ws[..n], bases[..n]), Combine(rs[..n], bases[..n]);
      OneResponse(ws[n], rs[n], bases[n], c);
      AddSwap(r, ScalarMult(c, w), ScalarMult(rs[n], bases[n]), ScalarMult(c, ScalarMult(ws[n], bases[n])));
      Distribute(c, w, ScalarMult(ws[n], bases[n]));
    }
  }

  lemma OneResponse(w: Scalar, r: Scalar, b: Scalar, c: Scalar)
    ensures ScalarMult(Add(Mul(c, w), r), b) == Add(ScalarMult(r, b), ScalarMult(c, ScalarMult(w, b)))
  {
    Distribute(b, Mul(c, w), r);
    MulAssoc(c, w, b);
  }

  /** Four summands may be regrouped pairwise. */
  lemma AddSwap(a: Scalar, b: Scalar, c: Scalar, d: Scalar)
    ensures Add(Add(a, b), Add(c, d)) == Add(Add(a, c), Add(b, d))
  {}

  /** The opening two responses to different challenges give away: (z_i - z'_i) / (c - c'). */
  function Extracted(zs: seq<Scalar>, zs': seq<Scalar>, c: Scalar, c': Scalar): (ws: seq<Scalar>)
    requires |zs| == |zs'|
    ensures |ws| == |zs|
  {
    seq(|zs|, i requires 0 <= i < |zs| => Mul(Inv(Sub(c, c')), Sub(zs[i], zs'[i])))
  }

  /**
   Special soundness: two accepting responses to different challenges for one announcement open the
   commitment, for any number of bases.
   */
  lemma ExtractedOpens(zs: seq<Scalar>, zs': seq<Scalar>, bases: seq<Scalar>,
                       announcement: Scalar, c: Scalar, c': Scalar, commitment: Scalar)
    requires |zs| == |zs'| == |bases| && c != c'
    requires Accepts(zs, bases, announcement, c, commitment) && Accepts(zs', bases, announcement, c', commitment)
    ensures Combine(Extracted(zs, zs', c, c'), bases) == commitment
  {
    var i, d := Inv(Sub(c, c')), Sub(c, c');
    ExtractedCombines(zs, zs', bases, c, c');
    // subtracting the two equations leaves d * commitment
    Distribute(commitment, c, Neg(c'));
    MulNeg(c', commitment);
    assert Sub(Combine(zs, bases), Combine(zs', bases)) == ScalarMult(d, commitment);
    MulAssoc(i, d, commitment);
    InvWorks(d);
    MulOne(commitment);
  }

  lemma {:induction false} ExtractedCombines(zs: seq<Scalar>, zs': seq<Scalar>, bases: seq<Scalar>,
                                             c: Scalar, c': Scalar)
    requires |zs| == |zs'| == |bases|
    ensures Combine(Extracted(zs, zs', c, c'), bases)
         == Mul(Inv(Sub(c, c')), Sub(Combine(zs, bases), Combine(zs', bases)))
  {
    var i := Inv(Sub(c, c'));
    if zs == [] {
      MulOne(i);
    } else {
      var n := |zs| - 1;
      ExtractedCombines(zs[..n], zs'[..n], bases[..n], c, c');
      assert Extracted(zs, zs', c, c')[..n] == Extracted(zs[..n], zs'[..n], c, c');
      OneExtraction(i, Combine(zs[..n], bases[..n]), Combine(zs'[..n], bases[..n]), zs[n], zs'[n], bases[n]);
    }
  }

  lemma OneExtraction(i: Scalar, s: Scalar, s': Scalar, z: Scalar, z': Scalar, b: Scalar)
    ensures Add(Mul(i, Sub(s, s')), ScalarMult(Mul(i, Sub(z, z')), b))
         == Mul(i, Sub(Add(s, ScalarMult(z, b)), Add(s', ScalarMult(z', b))))
  {
    MulAssoc(i, Sub(z, z'), b);
    Distribute(b, z, Neg(z'));
    MulNeg(z', b);
    Distribute(i, Sub(s, s'), Sub(ScalarMult(z, b), ScalarMult(z', b)));
    SubSwap(s, s', ScalarMult(z, b), ScalarMult(z', b));
  }

  lemma SubSwap(a: Scalar, a': Scalar, b: Scalar, b': Scalar)
    ensures Add(Sub(a, a'), Sub(b, b')) == Sub(Add(a, b), Add(a', b'))
  {
    AddSwap(a, Neg(a'), b, Neg(b'));
    NegOfSum(a', b');
  }

  lemma NegOfSum(a: Scalar, b: Scalar)
    ensures Neg(Add(a, b)) == Add(Neg(a), Neg(b))
  {}

  /** From two honest transcripts the extraction returns exactly the prover's witness. */
  lemma ExtractionRecoversWitness(ws: seq<Scalar>, rs: seq<Scalar>, c: Scalar, c': Scalar)
    requires |ws| == |rs| && c != c'
    ensures Extracted(Responses(c, ws, rs), Responses(c', ws, rs), c, c') == ws
  {
    forall k | 0 <= k < |ws|
      ensures Extracted(Responses(c, ws, rs), Responses(c', ws, rs), c, c')[k] == ws[k]
    {
      var i, d := Inv(Sub(c, c')), Sub(c, c');
      Distribute(ws[k], c, Neg(c'));
      MulNeg(c', ws[k]);
      assert Sub(Add(Mul(c, ws[k]), rs[k]), Add(Mul(c', ws[k]), rs[k])) == Mul(d, ws[k]);
      MulAssoc(i, d, ws[k]);
      InvWorks(d);
      MulOne(ws[k]);
    }
  }

  // ---------------------------------------------------------------- what responses hide

  /** The one randomness that makes a witness answer a challenge with the given responses. */
  function Masks(c: Scalar, ws: seq<Scalar>, zs: seq<Scalar>): (rs: seq<Scalar>)
    requires |ws| == |zs|
    ensures |rs| == |ws|
  {
    seq(|ws|, i requires 0 <= i < |ws| => Sub(zs[i], Mul(c, ws[i])))
  }

  /** Whatever the witness, every tuple of responses comes from exactly one randomness. */
  lemma OneMaskPerResponse(c: Scalar, ws: seq<Scalar>, rs: seq<Scalar>, zs: seq<Scalar>)
    requires |ws| == |rs| == |zs|
    ensures Responses(c, ws, rs) == zs <==> rs == Masks(c, ws, zs)
  {
    forall i | 0 <= i < |ws|
      ensures Responses(c, ws, rs)[i] == zs[i] <==> rs[i] == Masks(c, ws, zs)[i]
    {
      Transpose(Mul(c, ws[i]), rs[i], zs[i]);
    }
    if rs == Masks(c, ws, zs) {
      assert Responses(c, ws, rs) == zs;
    }
    if Responses(c, ws, rs) == zs {
      assert rs == Masks(c, ws, zs);
    }
  }

  lemma Transpose(a: Scalar, r: Scalar, z: Scalar)
    ensures Add(a, r) == z <==> r == Sub(z, a)
  {}

  /**
   Responses hide the witness: of two openings of one commitment, each yields every transcript of the
   other, announcement and responses, from exactly one randomness of its own.
   */
  lemma TranscriptFitsEveryOpening(c: Scalar, ws: seq<Scalar>, ws': seq<Scalar>, rs: seq<Scalar>, bases: seq<Scalar>)
    requires |ws| == |ws'| == |rs| == |bases| && Combine(ws, bases) == Combine(ws', bases)
    ensures var zs := Responses(c, ws, rs);
            var rs' := Masks(c, ws', zs);
            && Responses(c, ws', rs') == zs && Combine(rs', bases) == Combine(rs, bases)
            && forall us: seq<Scalar> | |us| == |ws'| && Responses(c, ws', us) == zs :: us == rs'
  {
    var zs := Responses(c, ws, rs);
    var rs' := Masks(c, ws', zs);
    OneMaskPerResponse(c, ws', rs', zs);
    HonestResponsesAccepted(ws, rs, bases, c);
    HonestResponsesAccepted(ws', rs', bases, c);
    var cC := ScalarMult(c, Combine(ws, bases));
    Transpose(cC, Combine(rs, bases), Combine(zs, bases));
    Transpose(cC, Combine(rs', bases), Combine(zs, bases));
    forall us: seq<Scalar> | |us| == |ws'| && Responses(c, ws', us) == zs
      ensures us == rs'
    {
      OneMaskPerResponse(c, ws', us, zs);
    }
  }
}

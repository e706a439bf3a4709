/** The Pointcheval-Sanders signature scheme (lib/PSSig.go), and its verification in the browser (tca/cryptolib.js). */
module PSSig {
  import opened Wrappers
  import opened Field
  import opened MultiExp

  datatype SigError = MissingSignature

  datatype Signature = Signature(sigma1: G1, sigma2: G1)

  datatype SecretKey = SecretKey(x: Scalar, yn: seq<Scalar>, X: Option<G1>)

  datatype PublicKey = PublicKey(Yn: seq<G1>, Xhat: G2, Yhatn: seq<G2>)

  /** The public key belongs to the secret key. */
  ghost predicate Match(sk: SecretKey, pk: PublicKey) {
    sk.X == Some(sk.x) && pk.Xhat == sk.x && pk.Yn == sk.yn && pk.Yhatn == sk.yn
  }

  // ---------------------------------------------------------------- keys

  class PSPublicKey {
    var Yn: seq<G1>
    var Xhat: G2
    var Yhatn: seq<G2>

    ghost function View(): PublicKey
      reads this
    {
      PublicKey(Yn, Xhat, Yhatn)
    }

    constructor (Yn: seq<G1>, Xhat: G2, Yhatn: seq<G2>)
      ensures View() == PublicKey(Yn, Xhat, Yhatn)
    {
      this.Yn, this.Xhat, this.Yhatn := Yn, Xhat, Yhatn;
    }
  }

  class PSSecretKey {
    var x: Scalar
    var yn: seq<Scalar>
    var X: Option<G1>

    ghost function View(): SecretKey
      reads this
    {
      SecretKey(x, yn, X)
    }

    constructor (x: Scalar, yn: seq<Scalar>, X: Option<G1>)
      ensures View() == SecretKey(x, yn, X)
    {
      this.x, this.yn, this.X := x, yn, X;
    }

    /** Replaces x and X; the public key's Xhat is not touched, so the pair stays matched iff x did not change. */
    method SetSecretX(x: Scalar, ghost pk: PSPublicKey)
      modifies this
      ensures View() == old(View()).(x := x, X := Some(x))
      ensures old(Match(View(), pk.View())) ==> (Match(View(), pk.View()) <==> x == old(this.x))
    {
      this.x := x;
      X := Some(ScalarMult(x, GENERATOR));
      MulOne(x);
    }

    /** Replaces the y's and, if a public key is given, both of its vectors: a pair matched in x is matched again. */
    method SetSecretY(yn: seq<Scalar>, publicKey: PSPublicKey?)
      requires publicKey != null ==> |publicKey.Yn| == |publicKey.Yhatn|
      modifies this, publicKey
      ensures View() == old(View()).(yn := yn)
      ensures publicKey != null ==> publicKey.View() == PublicKey(yn, old(publicKey.Xhat), yn)
      ensures publicKey != null && old(X) == Some(old(x)) && old(publicKey.Xhat) == old(x) ==>
                Match(View(), publicKey.View())
    {
      this.yn := yn;
      if publicKey != null {
        if |publicKey.Yn| != |yn| {
          publicKey.Yn := seq(|yn|, _ => 0);
          publicKey.Yhatn := seq(|yn|, _ => 0);
        }
        for i := 0 to |yn|
          invariant View() == old(View()).(yn := yn) && publicKey.Xhat == old(publicKey.Xhat)
          invariant |publicKey.Yn| == |publicKey.Yhatn| == |yn|
          invariant publicKey.Yn[..i] == yn[..i] && publicKey.Yhatn[..i] == yn[..i]
        {
          MulOne(yn[i]);
          publicKey.Yn := publicKey.Yn[i := ScalarMult(yn[i], GENERATOR)];
          publicKey.Yhatn := publicKey.Yhatn[i := ScalarMult(yn[i], GENERATOR)];
        }
      }
    }
  }

  /** `x` and `ys` are what the random generator yields, one scalar per attribute. */
  method PSKeyGen(x: Scalar, ys: seq<Scalar>) returns (sk: PSSecretKey, pk: PSPublicKey)
    ensures fresh(sk) && fresh(pk)
    ensures sk.View() == SecretKey(x, ys, Some(x)) && Match(sk.View(), pk.View())
  {
    MulOne(x);
    var Yn, Yhatn := seq(|ys|, _ => 0), seq(|ys|, _ => 0);
    for i := 0 to |ys|
      invariant |Yn| == |Yhatn| == |ys|
      invariant Yn[..i] == ys[..i] && Yhatn[..i] == ys[..i]
    {
      MulOne(ys[i]);
      Yn := Yn[i := ScalarMult(ys[i], GENERATOR)];
      Yhatn := Yhatn[i := ScalarMult(ys[i], GENERATOR)];
    }
    sk := new PSSecretKey(x, ys, Some(ScalarMult(x, GENERATOR)));
    pk := new PSPublicKey(Yn, ScalarMult(x, GENERATOR), Yhatn);
  }

  // ---------------------------------------------------------------- signing and verifying

  /** What it takes to be a signature on A: sigma2 = (x + sum A_i * y_i) * sigma1. */
  ghost predicate IsSignature(sigma: Signature, A: seq<Scalar>, x: Scalar, ys: seq<Scalar>)
    requires |A| <= |ys|
  {
    sigma.sigma2 == ScalarMult(Add(x, Combine(A, ys[..|A|])), sigma.sigma1)
  }

  method PSSign(A: seq<Scalar>, sk: SecretKey, r: Scalar) returns (sigma: Signature)
    requires |A| <= |sk.yn|
    ensures sigma.sigma1 == r && IsSignature(sigma, A, sk.x, sk.yn)
    ensures sigma.sigma2 == ScalarMult(Add(sk.x, Combine(A, sk.yn[..|A|])), r)
  {
    MulOne(r);
    var sigma1 := ScalarMult(r, GENERATOR);
    var sigma2 := ScalarMult(sk.x, sigma1);
    for i := 0 to |A|
      invariant sigma2 == ScalarMult(Add(sk.x, Combine(A[..i], sk.yn[..i])), sigma1)
    {
      CombineStep(A, sk.yn, i);
      AddAssoc(sk.x, Combine(A[..i], sk.yn[..i]), Mul(A[i], sk.yn[i]));
      Distribute(sigma1, Add(sk.x, Combine(A[..i], sk.yn[..i])), Mul(A[i], sk.yn[i]));
      var term := ScalarMult(Mul(A[i], sk.yn[i]), sigma1);
      sigma2 := Add(sigma2, term);
    }
    assert A[..|A|] == A;
    sigma := Signature(sigma1, sigma2);
  }

  ghost predicate Verifies(sigma: Option<Signature>, A: seq<Scalar>, vk: Option<PublicKey>)
    requires vk.Some? && |A| <= |vk.value.Yn| ==> |A| <= |vk.value.Yhatn|
  {
    && sigma.Some? && vk.Some? && |A| <= |vk.value.Yn|
    && IsSignature(sigma.value, A, vk.value.Xhat, vk.value.Yhatn)
  }

  method PSVerify(sigma: Option<Signature>, A: seq<Scalar>, vk: Option<PublicKey>) returns (ok: bool)
    requires vk.Some? && |A| <= |vk.value.Yn| ==> |A| <= |vk.value.Yhatn|
    ensures ok <==> Verifies(sigma, A, vk)
    ensures ok <==> && sigma.Some? && vk.Some? && |A| <= |vk.value.Yn|
                    && Pair(sigma.value.sigma2, GENERATOR)
                       == Pair(sigma.value.sigma1, Add(vk.value.Xhat, Combine(A, vk.value.Yhatn[..|A|])))
  {
    if sigma.None? { return false; }
    if vk.None? || |vk.value.Yn| < |A| { return false; }
    var Signature(sigma1, sigma2) := sigma.value;
    var left := Pair(sigma2, GENERATOR);
    var rightG2 := SumG2(vk.value.Xhat, A, vk.value.Yhatn);
    var right := Pair(sigma1, rightG2);
    MulOne(sigma2);
    MulComm(sigma1, rightG2);
    return left == right;
  }

  /** The accumulator loop of both verification routines. */
  method SumG2(start: G2, A: seq<Scalar>, Yhatn: seq<G2>) returns (rightG2: G2)
    requires |A| <= |Yhatn|
    ensures rightG2 == Add(start, Combine(A, Yhatn[..|A|]))
  {
    rightG2 := start;
    for i := 0 to |A|
      invariant rightG2 == Add(start, Combine(A[..i], Yhatn[..i]))
    {
      CombineStep(A, Yhatn, i);
      var term := ScalarMult(A[i], Yhatn[i]);
      AddAssoc(start, Combine(A[..i], Yhatn[..i]), term);
      rightG2 := Add(rightG2, term);
    }
    assert A[..|A|] == A;
  }

  // ---------------------------------------------------------------- randomization

  function Randomize(sigma: Signature, k: Scalar, t: Scalar): Signature {
    Signature(ScalarMult(k, sigma.sigma1), ScalarMult(k, Add(sigma.sigma2, ScalarMult(t, sigma.sigma1))))
  }

  method RandomizeSig(sign: Option<Signature>, k: Scalar, t: Scalar)
    returns (r: Result<(Signature, Scalar, Scalar), SigError>)
    ensures r == if sign.None? then Err(MissingSignature) else Ok((Randomize(sign.value, k, t), k, t))
    ensures sign.Some? ==>
              && r.value.0.sigma1 == ScalarMult(k, sign.value.sigma1)
              && r.value.0.sigma2 == ScalarMult(k, Add(sign.value.sigma2, ScalarMult(t, sign.value.sigma1)))
  {
    if sign.None? { return Err(MissingSignature); }
    var sigma1prime := ScalarMult(k, sign.value.sigma1);
    var sigma1t := ScalarMult(t, sign.value.sigma1);
    var tmp := Add(sign.value.sigma2, sigma1t);
    var sigma2prime := ScalarMult(k, tmp);
    return Ok((Signature(sigma1prime, sigma2prime), k, t));
  }

  /** A randomized signature on A satisfies the signature equation with t added to the key. */
  ghost predicate VerifiesRandomized(sign: Option<Signature>, t: Scalar, A: seq<Scalar>, vk: PublicKey)
    requires |A| <= |vk.Yhatn|
  {
    sign.Some? && IsSignature(sign.value, A, Add(vk.Xhat, t), vk.Yhatn)
  }

  method VerifyRandomizedSig(sign: Option<Signature>, t: Scalar, A: seq<Scalar>, vk: PublicKey) returns (ok: bool)
    requires |A| <= |vk.Yhatn|
    ensures ok <==> VerifiesRandomized(sign, t, A, vk)
    ensures ok <==> && sign.Some?
                    && Pair(sign.value.sigma2, GENERATOR)
                       == Pair(sign.value.sigma1, Add(Add(vk.Xhat, Combine(A, vk.Yhatn[..|A|])), t))
  {
    if sign.None? { return false; }
    var rightG2 := SumG2(vk.Xhat, A, vk.Yhatn);
    var g2t := ScalarMult(t, GENERATOR);
    MulOne(t);
    assert Add(rightG2, g2t) == Add(Add(vk.Xhat, t), Combine(A, vk.Yhatn[..|A|]));
    rightG2 := Add(rightG2, g2t);
    var right := Pair(sign.value.sigma1, rightG2);
    var left := Pair(sign.value.sigma2, GENERATOR);
    MulOne(sign.value.sigma2);
    MulComm(sign.value.sigma1, rightG2);
    return left == right;
  }

  /** Signing under a key and verifying under its public half agree, for any number of attributes. */
  lemma SignedVerifies(sigma: Signature, A: seq<Scalar>, sk: SecretKey, pk: PublicKey)
    requires Match(sk, pk) && |A| <= |sk.yn|
    ensures IsSignature(sigma, A, sk.x, sk.yn) <==> Verifies(Some(sigma), A, Some(pk))
  {}

  /**
   Randomization neither makes nor breaks signatures: with a nonzero k, a randomized signature passes
   with its t exactly when the original signature verifies.
   */
  lemma RandomizedIffOriginal(sigma: Signature, k: Scalar, t: Scalar, A: seq<Scalar>, vk: PublicKey)
    requires |A| <= |vk.Yhatn| && k != 0
    ensures VerifiesRandomized(Some(Randomize(sigma, k, t)), t, A, vk) <==> IsSignature(sigma, A, vk.Xhat, vk.Yhatn)
  {
    var e := Add(vk.Xhat, Combine(A, vk.Yhatn[..|A|]));
    RandomizedEquation(sigma, k, t, e);
    assert Add(Add(vk.Xhat, t), Combine(A, vk.Yhatn[..|A|])) == Add(e, t);
    var shift := ScalarMult(t, sigma.sigma1);
    MulCancel(Add(sigma.sigma2, shift), Add(ScalarMult(e, sigma.sigma1), shift), k);
  }

  /** The randomized right-hand side is k times the original one with t * sigma1 added. */
  lemma RandomizedEquation(sigma: Signature, k: Scalar, t: Scalar, e: Scalar)
    ensures ScalarMult(Add(e, t), ScalarMult(k, sigma.sigma1))
         == ScalarMult(k, Add(ScalarMult(e, sigma.sigma1), ScalarMult(t, sigma.sigma1)))
  {
    MulAssoc(Add(e, t), k, sigma.sigma1);
    MulComm(Add(e, t), k);
    MulAssoc(k, Add(e, t), sigma.sigma1);
    Distribute(sigma.sigma1, e, t);
  }

  /** A randomized signature verifies with its t for every k, zero included. */
  lemma RandomizedVerifies(sigma: Signature, k: Scalar, t: Scalar, A: seq<Scalar>, vk: PublicKey)
    requires |A| <= |vk.Yhatn| && IsSignature(sigma, A, vk.Xhat, vk.Yhatn)
    ensures VerifiesRandomized(Some(Randomize(sigma, k, t)), t, A, vk)
  {
    var e := Add(vk.Xhat, Combine(A, vk.Yhatn[..|A|]));
    RandomizedEquation(sigma, k, t, e);
    assert Add(Add(vk.Xhat, t), Combine(A, vk.Yhatn[..|A|])) == Add(e, t);
  }

  // ---------------------------------------------------------------- what a signature binds

  /**
   What a signature says about its attributes: next to A it is valid on exactly those A' with the same
   combination of the y's; and if its sigma1 is the identity, on every A' whatever.
   */
  lemma ValidOnBoth(sigma: Signature, A: seq<Scalar>, A': seq<Scalar>, x: Scalar, ys: seq<Scalar>)
    requires |A| <= |ys| && |A'| <= |ys| && IsSignature(sigma, A, x, ys)
    ensures IsSignature(sigma, A', x, ys)
       <==> sigma.sigma1 == 0 || Combine(A, ys[..|A|]) == Combine(A', ys[..|A'|])
  {
    var e, e' := Add(x, Combine(A, ys[..|A|])), Add(x, Combine(A', ys[..|A'|]));
    MulComm(e, sigma.sigma1);
    MulComm(e', sigma.sigma1);
    if sigma.sigma1 == 0 {
      MulOne(e);
      MulOne(e');
    } else {
      MulCancel(e, e', sigma.sigma1);
    }
  }

  /** A key pair and a first element bind the one attribute signed. */
  ghost predicate Binds(sigma1: G1, x: Scalar, y: Scalar) {
    forall sigma2: G1, m: Scalar, m': Scalar ::
      IsSignature(Signature(sigma1, sigma2), [m], x, [y]) && IsSignature(Signature(sigma1, sigma2), [m'], x, [y]) ==>
        m == m'
  }

  /** A signature is valid on one attribute only, exactly when neither sigma1 nor y is zero. */
  lemma BindsIff(sigma1: G1, x: Scalar, y: Scalar)
    ensures Binds(sigma1, x, y) <==> sigma1 != 0 && y != 0
  {
    if sigma1 != 0 && y != 0 {
      forall sigma2: G1, m: Scalar, m': Scalar
        | IsSignature(Signature(sigma1, sigma2), [m], x, [y]) && IsSignature(Signature(sigma1, sigma2), [m'], x, [y])
        ensures m == m'
      {
        ValidOnBoth(Signature(sigma1, sigma2), [m], [m'], x, [y]);
        OneTerm(m, y);
        OneTerm(m', y);
        MulComm(m, y);
        MulComm(m', y);
        MulCancel(m, m', y);
      }
    } else {
      var sigma := Signature(sigma1, ScalarMult(Add(x, Combine([0], [y][..1])), sigma1));
      OneTerm(0, y);
      OneTerm(1, y);
      MulOne(y);
      ValidOnBoth(sigma, [0], [1], x, [y]);
      assert IsSignature(sigma, [0], x, [y]) && IsSignature(sigma, [1], x, [y]);
    }
  }

  lemma OneTerm(m: Scalar, y: Scalar)
    ensures Combine([m], [y][..|[m]|]) == ScalarMult(m, y)
  {
    assert [y][..1] == [y] && [m][..0] == [] && [y][..0] == [];
  }

  // ---------------------------------------------------------------- the browser's check

  datatype Thrown = NotJson | BadPoint | BadBase64 | InvalidScalar | PairingAtInfinity

  /** Point multiplication of the browser library refuses the scalar zero. */
  function BrowserMultiply(s: Scalar, p: Scalar): Result<Scalar, Thrown> {
    if s == 0 then Err(InvalidScalar) else Ok(ScalarMult(s, p))
  }

  /** Its pairing refuses the identity. */
  function BrowserPairing(p: G1, q: G2): Result<Gt, Thrown> {
    if p == 0 || q == 0 then Err(PairingAtInfinity) else Ok(Pair(p, q))
  }

  function BrowserPSVerify(acid: Signature, domain: Scalar, t: Scalar, Xhat: G2, Yhat: G2): Result<bool, Thrown> {
    var negT := (Q - t) % Q;
    match BrowserMultiply(negT, acid.sigma1)
    case Err(e) => Err(e)
    case Ok(blind) =>
      match BrowserPairing(Add(acid.sigma2, blind), GENERATOR)
      case Err(e) => Err(e)
      case Ok(eqLeft) =>
        match BrowserMultiply(domain, Yhat)
        case Err(e) => Err(e)
        case Ok(term) =>
          match BrowserPairing(acid.sigma1, Add(Xhat, term))
          case Err(e) => Err(e)
          case Ok(eqRight) => Ok(eqLeft == eqRight)
  }

  /** The two members of an acid, `None` where the text is not a point. */
  datatype AcidText = AcidText(sigma1: Option<G1>, sigma2: Option<G1>)

  /** The check on the wire: an acid that may not be JSON, and scalars whose text may not be base64. */
  function BrowserPSVerifyText(acid: Option<AcidText>, domain: Option<Scalar>, t: Option<Scalar>, Xhat: G2, Yhat: G2)
    : Result<bool, Thrown>
  {
    if acid.None? then Err(NotJson)
    else if acid.value.sigma1.None? || acid.value.sigma2.None? then Err(BadPoint)
    else if domain.None? || t.None? then Err(BadBase64)
    else BrowserPSVerify(Signature(acid.value.sigma1.value, acid.value.sigma2.value), domain.value, t.value, Xhat, Yhat)
  }

  /** All three texts decode. */
  predicate Decodes(acid: Option<AcidText>, domain: Option<Scalar>, t: Option<Scalar>) {
    acid.Some? && acid.value.sigma1.Some? && acid.value.sigma2.Some? && domain.Some? && t.Some?
  }

  /** The decoded inputs the browser's check throws on. */
  predicate BrowserThrows(acid: Signature, domain: Scalar, t: Scalar, Xhat: G2, Yhat: G2) {
    || t == 0 || domain == 0 || acid.sigma1 == 0
    || Sub(acid.sigma2, ScalarMult(t, acid.sigma1)) == 0
    || Add(Xhat, ScalarMult(domain, Yhat)) == 0
  }

  /**
   The browser and the server agree: on every input the browser's check either throws, exactly when a
   text does not decode or in the cases listed, or accepts exactly when the server's check of the
   randomized signature accepts.
   */
  lemma BrowserAgreesWithServer(acid: Option<AcidText>, domain: Option<Scalar>, t: Option<Scalar>, vk: PublicKey)
    requires |vk.Yhatn| >= 1
    ensures var r := BrowserPSVerifyText(acid, domain, t, vk.Xhat, vk.Yhatn[0]);
            if !Decodes(acid, domain, t) then r.Err?
            else
              var sigma := Signature(acid.value.sigma1.value, acid.value.sigma2.value);
              if BrowserThrows(sigma, domain.value, t.value, vk.Xhat, vk.Yhatn[0]) then r.Err?
              else r == Ok(VerifiesRandomized(Some(sigma), t.value, [domain.value], vk))
  {
    if Decodes(acid, domain, t) {
      DecodedAgrees(Signature(acid.value.sigma1.value, acid.value.sigma2.value), domain.value, t.value, vk);
    }
  }

  lemma DecodedAgrees(acid: Signature, domain: Scalar, t: Scalar, vk: PublicKey)
    requires |vk.Yhatn| >= 1
    ensures var r := BrowserPSVerify(acid, domain, t, vk.Xhat, vk.Yhatn[0]);
            if BrowserThrows(acid, domain, t, vk.Xhat, vk.Yhatn[0]) then r.Err?
            else r == Ok(VerifiesRandomized(Some(acid), t, [domain], vk))
  {
    var Yhat := vk.Yhatn[0];
    var e := Add(vk.Xhat, ScalarMult(domain, Yhat));
    assert [domain][..0] == [] && vk.Yhatn[..1] == [Yhat] && [Yhat][..0] == [];
    assert Combine([domain], [Yhat]) == ScalarMult(domain, Yhat);
    if t == 0 {
      SameResidue(Q, 0, Q, 1);
    } else {
      OwnResidue(Q - t);
    }
    MulNeg(t, acid.sigma1);
    Distribute(acid.sigma1, e, t);
    MulComm(acid.sigma1, e);
    MulOne(Sub(acid.sigma2, ScalarMult(t, acid.sigma1)));
    assert Add(Add(vk.Xhat, t), ScalarMult(domain, Yhat)) == Add(e, t);
  }
}

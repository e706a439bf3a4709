/**
 The IdP's consent state machine (IdP/storage.go, handleToken in IdP/aake.go, and the authorize and
 revoke handlers in IdP/ssso.go): authorization codes, token issuance, authorization records and
 revocation, over runs of handlers executed one at a time.
 */
module Consent {
  import opened Wrappers
  import opened Field
  import opened PSSig
  import LoginProof
  import SessionKey

  datatype ConsentError =
    | MissingDEnc | CodeNotSaved
    | InvalidBody | CodeNotFound | CodeExpired | CodeUsed
    | UndecodableProof | ProofRejected(e: LoginProof.LoginError) | MalformedAcid | AcidMismatch
    | UndecodableExchange | NoSessionKey(k: SessionKey.SessionError) | TokensNotGenerated
    | MissingAcid

  datatype AuthorizationCode = AuthorizationCode(
    code: string, oprfEnc: string, acid: string, uid: string, username: string, email: string, scope: string,
    expiresAt: int, used: bool)

  datatype Tokens = Tokens(idToken: string, accessToken: string, refreshToken: string)

  datatype Record = Record(
    acid: string, uid: string, auid: string, oprfEnc: string, username: string, email: string, scope: string,
    tokens: Tokens)

  /** A token request: `None` where a section does not decode. */
  datatype Request = Request(code: string, proof: Option<LoginProof.PoK>, e2ee: Option<SessionKey.E2EE>)

  datatype Response = Response(auid: string, tokens: Tokens)

  /** The IdP's credential verification keys, its key-exchange keys, and the e-mail address of each account. */
  datatype Config = Config(vk1: PublicKey, vk2: PublicKey, identity: SessionKey.KeyPair,
                           empkeys: map<string, SessionKey.KeyPair>, emails: map<string, string>)

  ghost predicate ValidConfig(cfg: Config) {
    |cfg.vk1.Yhatn| > 0 && |cfg.vk2.Yhatn| > 1
  }

  ghost predicate Injective<A(!new), B(!new)>(f: A -> B) {
    forall a, b :: f(a) == f(b) ==> a == b
  }

  function Unary(p: G1): (r: string)
    ensures |r| == p
  {
    seq(p, _ => '1')
  }

  type Encoder = f: G1 -> string | Injective(f) witness (p: G1) => Unary(p)

  /** The canonical text form of a point. */
  const G1ToString: Encoder

  const HashStringToScalar: string -> Scalar

  /** The two strings in an acid's JSON form, if it parses. */
  const ParseAcid: string -> Option<(string, string)>

  /** Five minutes, in nanoseconds. */
  const CODE_TTL := 300_000_000_000

  // ---------------------------------------------------------------- what the handlers do

  datatype State = State(codes: map<string, AuthorizationCode>, messages: map<string, seq<Record>>,
                         sessionKS: Option<SessionKey.Key>)

  datatype Event =
    | Authorize(acid: string, uid: string, username: string, scope: string, dEnc: string,
                draw: Option<string>, now: int)
    | Redeem(request: Option<Request>, now: int, ksSaved: bool, minted: Option<Tokens>)
    | Revoke(sessionUid: string, path: string)

  function EmailOf(cfg: Config, username: string): string {
    if username in cfg.emails then cfg.emails[username] else ""
  }

  /** The code an event leaves in the store. */
  function SavedBy(cfg: Config, e: Event): Option<AuthorizationCode> {
    if e.Authorize? && e.dEnc != "" && e.draw.Some? then
      Some(AuthorizationCode(e.draw.value, e.dEnc, e.acid, e.uid, e.username, EmailOf(cfg, e.username), e.scope,
                             e.now + CODE_TTL, false))
    else None
  }

  function LookedUp(codes: map<string, AuthorizationCode>, code: string, now: int)
    : (map<string, AuthorizationCode>, Result<AuthorizationCode, ConsentError>)
  {
    if code !in codes then (codes, Err(CodeNotFound))
    else if now > codes[code].expiresAt then (codes - {code}, Err(CodeExpired))
    else if codes[code].used then (codes, Err(CodeUsed))
    else (codes, Ok(codes[code]))
  }

  /** The session key, once proof, consent and key exchange all check out. */
  ghost function Checked(cfg: Config, ac: AuthorizationCode, req: Request): Result<SessionKey.Key, ConsentError>
    requires ValidConfig(cfg)
  {
    if req.proof.None? then Err(UndecodableProof)
    else
      var p := req.proof.value;
      var verdict := LoginProof.Verdict(LoginProof.ChallengeOf(cfg.vk1, cfg.vk2, p), cfg.vk1, cfg.vk2, p);
      var consented := ParseAcid(ac.acid);
      if verdict.Err? then Err(ProofRejected(verdict.error))
      else if consented.None? then Err(MalformedAcid)
      else if consented.value != (G1ToString(p.sign1.sigma1), G1ToString(p.sign1.sigma2)) then Err(AcidMismatch)
      else if req.e2ee.None? then Err(UndecodableExchange)
      else
        var ks := SessionKey.GetSessionKey(cfg.identity, cfg.empkeys, req.e2ee.value);
        if ks.Err? then Err(NoSessionKey(ks.error)) else Ok(ks.value)
  }

  function AuidOf(sigma1: G1, uid: string): string {
    G1ToString(SessionKey.GenerateAuid(sigma1, HashStringToScalar(uid)))
  }

  function RecordFor(ac: AuthorizationCode, sigma1: G1, tokens: Tokens): Record {
    Record(ac.acid, ac.uid, AuidOf(sigma1, ac.uid), ac.oprfEnc, ac.username, ac.email, ac.scope, tokens)
  }

  function RecordsOf(messages: map<string, seq<Record>>, uid: string): seq<Record> {
    if uid in messages then messages[uid] else []
  }

  function WithRecord(messages: map<string, seq<Record>>, rec: Record): map<string, seq<Record>> {
    messages[rec.uid := RecordsOf(messages, rec.uid) + [rec]]
  }

  ghost function Redeemed(cfg: Config, s: State, e: Event): (State, Result<Record, ConsentError>)
    requires ValidConfig(cfg) && e.Redeem?
  {
    if e.request.None? then (s, Err(InvalidBody))
    else
      var req := e.request.value;
      var (codes, ac) := LookedUp(s.codes, req.code, e.now);
      if ac.Err? then (s.(codes := codes), Err(ac.error))
      else
        var ks := Checked(cfg, ac.value, req);
        if ks.Err? then (s, Err(ks.error))
        else
          var s1 := if e.ksSaved then s.(sessionKS := Some(ks.value)) else s;
          if e.minted.None? then (s1, Err(TokensNotGenerated))
          else
            var rec := RecordFor(ac.value, req.proof.value.sign1.sigma1, e.minted.value);
            (s1.(codes := s.codes - {req.code}, messages := WithRecord(s.messages, rec)), Ok(rec))
  }

  /** The list without its first record for `acid`. */
  function RemoveFirst(records: seq<Record>, acid: string): seq<Record> {
    if records == [] then []
    else if records[0].acid == acid then records[1..]
    else [records[0]] + RemoveFirst(records[1..], acid)
  }

  function Revoked(messages: map<string, seq<Record>>, uid: string, acid: string): map<string, seq<Record>> {
    if uid in messages then messages[uid := RemoveFirst(messages[uid], acid)] else messages
  }

  ghost function Step(cfg: Config, s: State, e: Event): State
    requires ValidConfig(cfg)
  {
    match e
    case Authorize(_, _, _, _, _, _, _) =>
      var saved := SavedBy(cfg, e);
      if saved.None? then s else s.(codes := s.codes[saved.value.code := saved.value])
    case Redeem(_, _, _, _) => Redeemed(cfg, s, e).0
    case Revoke(uid, acid) => if acid == "" then s else s.(messages := Revoked(s.messages, uid, acid))
  }

  lemma PastOther(lst: seq<Record>, e: nat, acid: string)
    requires e < |lst| && lst[e].acid != acid
    ensures lst[..e] + RemoveFirst(lst[e..], acid) == lst[..e + 1] + RemoveFirst(lst[e + 1..], acid)
  {
    assert lst[e..][1..] == lst[e + 1..];
    assert lst[..e] + [lst[e]] == lst[..e + 1];
  }

  // ---------------------------------------------------------------- the stores

  class CodeStore {
    var codes: map<string, AuthorizationCode>

    constructor ()
      ensures codes == map[]
    {
      codes := map[];
    }

    /** Returns an unused, unexpired code, dropping it if it has expired. */
    method GetCode(code: string, now: int) returns (r: Result<AuthorizationCode, ConsentError>)
      modifies this
      ensures (codes, r) == LookedUp(old(codes), code, now)
      ensures r.Ok? <==> code in old(codes) && now <= old(codes)[code].expiresAt && !old(codes)[code].used
      ensures r.Ok? ==> r.value == old(codes)[code]
      ensures codes == if code in old(codes) && now > old(codes)[code].expiresAt then old(codes) - {code}
                       else old(codes)
    {
      if code !in codes { return Err(CodeNotFound); }
      var ac := codes[code];
      if now > ac.expiresAt {
        codes := codes - {code};
        return Err(CodeExpired);
      }
      if ac.used { return Err(CodeUsed); }
      return Ok(ac);
    }

    /** `draw` is what the code generator returns, `None` when it fails. */
    method SaveCode(dEnc: string, acid: string, uid: string, username: string, email: string, scope: string,
                    ttl: int, draw: Option<string>, now: int)
      returns (r: Result<AuthorizationCode, ConsentError>)
      modifies this
      ensures if draw.None? then r == Err(CodeNotSaved) && codes == old(codes)
              else
                && r == Ok(AuthorizationCode(draw.value, dEnc, acid, uid, username, email, scope, now + ttl, false))
                && codes == old(codes)[draw.value := r.value]
    {
      if draw.None? { return Err(CodeNotSaved); }
      var ac := AuthorizationCode(draw.value, dEnc, acid, uid, username, email, scope, now + ttl, false);
      codes := codes[draw.value := ac];
      return Ok(ac);
    }

    method DeleteCode(code: string)
      modifies this
      ensures codes == old(codes) - {code}
    {
      if code !in codes {
        assert codes - {code} == codes;
        return;
      }
      codes := codes - {code};
    }
  }

  class AuthorizedMessages {
    var messages: map<string, seq<Record>>

    constructor ()
      ensures messages == map[]
    {
      messages := map[];
    }

    method Add(data: Option<Record>)
      modifies this
      ensures messages == if data.None? then old(messages) else WithRecord(old(messages), data.value)
    {
      if data.None? { return; }
      var uid := data.value.uid;
      if uid !in messages {
        messages := messages[uid := []];
      }
      messages := messages[uid := messages[uid] + [data.value]];
    }

    method GetAll(uid: Option<string>) returns (out: seq<Record>)
      ensures out == if uid.None? then [] else RecordsOf(messages, uid.value)
    {
      out := [];
      if uid.None? || uid.value !in messages || |messages[uid.value]| == 0 { return; }
      var lst := messages[uid.value];
      for e := 0 to |lst|
        invariant out == lst[..e]
      {
        out := out + [lst[e]];
      }
    }

    /** Removes the user's first record for one acid. */
    method Delete(uid: Option<string>, acid: Option<string>)
      modifies this
      ensures messages == if uid.None? || acid.None? then old(messages)
                          else Revoked(old(messages), uid.value, acid.value)
    {
      if uid.None? || acid.None? || uid.value !in messages { return; }
      var lst := messages[uid.value];
      var e := 0;
      while e < |lst|
        invariant 0 <= e <= |lst| && messages == old(messages)
        invariant RemoveFirst(lst, acid.value) == lst[..e] + RemoveFirst(lst[e..], acid.value)
      {
        if lst[e].acid == acid.value {
          messages := messages[uid.value := lst[..e] + lst[e + 1..]];
          return;
        }
        PastOther(lst, e, acid.value);
        e := e + 1;
      }
      assert RemoveFirst(lst, acid.value) == lst;
    }
  }

  // ---------------------------------------------------------------- the handlers

  class IdPServer {
    const cfg: Config
    const codes: CodeStore
    const authorizedMsgs: AuthorizedMessages
    var sessionKS: Option<SessionKey.Key>

    ghost function Contents(): State
      reads this, codes, authorizedMsgs
    {
      State(codes.codes, authorizedMsgs.messages, sessionKS)
    }

    constructor (cfg: Config)
      ensures Contents() == State(map[], map[], None) && this.cfg == cfg
    {
      this.cfg := cfg;
      codes := new CodeStore();
      authorizedMsgs := new AuthorizedMessages();
      sessionKS := None;
    }

    /** Records the user's consent and returns a short-lived code. */
    method HandleAuthorizeCode(acid: string, uid: string, username: string, scope: string, dEnc: string,
                               draw: Option<string>, now: int)
      returns (r: Result<string, ConsentError>)
      requires ValidConfig(cfg)
      modifies codes
      ensures var e := Authorize(acid, uid, username, scope, dEnc, draw, now);
              && Contents() == Step(cfg, old(Contents()), e)
              && r == if dEnc == "" then Err(MissingDEnc) else if draw.None? then Err(CodeNotSaved) else Ok(draw.value)
      ensures r.Ok? ==>
                var email := if username in cfg.emails then cfg.emails[username] else "";
                codes.codes == old(codes.codes)[r.value := AuthorizationCode(
                  r.value, dEnc, acid, uid, username, email, scope, now + 300_000_000_000, false)]
      ensures r.Err? ==> codes.codes == old(codes.codes)
    {
      if dEnc == "" { return Err(MissingDEnc); }
      var email := "";
      if username in cfg.emails {
        email := cfg.emails[username];
      }
      var saved := codes.SaveCode(dEnc, acid, uid, username, email, scope, CODE_TTL, draw, now);
      if saved.Err? { return Err(saved.error); }
      return Ok(saved.value.code);
    }

    /** The checks between looking up the code and changing anything. */
    method CheckRequest(codeData: AuthorizationCode, req: Request) returns (r: Result<SessionKey.Key, ConsentError>)
      requires ValidConfig(cfg)
      ensures r == Checked(cfg, codeData, req)
      ensures r.Ok? <==>
                && req.proof.Some? && req.e2ee.Some?
                && var p := req.proof.value;
                   && LoginProof.Verdict(LoginProof.ChallengeOf(cfg.vk1, cfg.vk2, p), cfg.vk1, cfg.vk2, p) == Ok(())
                   && ParseAcid(codeData.acid) == Some((G1ToString(p.sign1.sigma1), G1ToString(p.sign1.sigma2)))
                   && SessionKey.GetSessionKey(cfg.identity, cfg.empkeys, req.e2ee.value).Ok?
      ensures r.Ok? ==> SessionKey.GetSessionKey(cfg.identity, cfg.empkeys, req.e2ee.value) == Ok(r.value)
    {
      if req.proof.None? { return Err(UndecodableProof); }
      var proof := req.proof.value;
      var ok := LoginProof.VerifyPoK(cfg.vk1, cfg.vk2, proof);
      if ok.Err? { return Err(ProofRejected(ok.error)); }
      var consentACID := ParseAcid(codeData.acid);
      if consentACID.None? { return Err(MalformedAcid); }
      var (sigma1, sigma2) := consentACID.value;
      if G1ToString(proof.sign1.sigma1) != sigma1 || G1ToString(proof.sign1.sigma2) != sigma2 {
        return Err(AcidMismatch);
      }
      if req.e2ee.None? { return Err(UndecodableExchange); }
      var ks := SessionKey.GetSessionKey(cfg.identity, cfg.empkeys, req.e2ee.value);
      if ks.Err? { return Err(NoSessionKey(ks.error)); }
      return Ok(ks.value);
    }

    /** Redeems a code; `minted` is what token generation returns, `ksSaved` whether storing K_S works out. */
    method HandleToken(request: Option<Request>, now: int, ksSaved: bool, minted: Option<Tokens>)
      returns (r: Result<Response, ConsentError>)
      requires ValidConfig(cfg)
      modifies this, codes, authorizedMsgs
      ensures var e := Redeem(request, now, ksSaved, minted);
              var (after, outcome) := Redeemed(cfg, old(Contents()), e);
              && Contents() == after
              && r == if outcome.Ok? then Ok(Response(outcome.value.auid, outcome.value.tokens)) else Err(outcome.error)
      ensures r.Ok? ==>
                var ac := old(codes.codes)[request.value.code];
                var sigma1 := request.value.proof.value.sign1.sigma1;
                var auid := G1ToString(ScalarMult(HashStringToScalar(ac.uid), sigma1));
                && minted.Some? && r.value == Response(auid, minted.value)
                && RecordsOf(authorizedMsgs.messages, ac.uid)
                   == RecordsOf(old(authorizedMsgs.messages), ac.uid)
                      + [Record(ac.acid, ac.uid, auid, ac.oprfEnc, ac.username, ac.email, ac.scope, minted.value)]
                && codes.codes == old(codes.codes) - {request.value.code}
    {
      if request.None? { return Err(InvalidBody); }
      var req := request.value;
      var found := codes.GetCode(req.code, now);
      if found.Err? { return Err(found.error); }
      var codeData := found.value;
      var sessionKey := CheckRequest(codeData, req);
      if sessionKey.Err? { return Err(sessionKey.error); }
      var proof := req.proof.value;
      if ksSaved {
        sessionKS := Some(sessionKey.value);
      }
      var uid := HashStringToScalar(codeData.uid);
      var auidStr := G1ToString(SessionKey.GenerateAuid(proof.sign1.sigma1, uid));
      if minted.None? { return Err(TokensNotGenerated); }
      var userData := Record(codeData.acid, codeData.uid, auidStr, codeData.oprfEnc, codeData.username,
                             codeData.email, codeData.scope, minted.value);
      authorizedMsgs.Add(Some(userData));
      codes.DeleteCode(req.code);
      return Ok(Response(auidStr, minted.value));
    }

    /** Drops one authorization record of the logged-in user. */
    method HandleRevokeAuthorized(uid: string, acid: string) returns (r: Result<(), ConsentError>)
      requires ValidConfig(cfg)
      modifies authorizedMsgs
      ensures Contents() == Step(cfg, old(Contents()), Revoke(uid, acid))
      ensures r == if acid == "" then Err(MissingAcid) else Ok(())
    {
      if acid == "" { return Err(MissingAcid); }
      authorizedMsgs.Delete(Some(uid), Some(acid));
      return Ok(());
    }
  }

  // ---------------------------------------------------------------- runs

  ghost function After(cfg: Config, run: seq<Event>): State
    requires ValidConfig(cfg)
  {
    if run == [] then State(map[], map[], None)
    else Step(cfg, After(cfg, run[..|run| - 1]), run[|run| - 1])
  }

  /** What the token request at position `i` comes to. */
  ghost function OutcomeAt(cfg: Config, run: seq<Event>, i: nat): Result<Record, ConsentError>
    requires ValidConfig(cfg) && i < |run| && run[i].Redeem?
  {
    Redeemed(cfg, After(cfg, run[..i]), run[i]).1
  }

  /** Event `i` adds a record. */
  ghost predicate Adds(cfg: Config, run: seq<Event>, i: nat)
    requires ValidConfig(cfg) && i < |run|
  {
    run[i].Redeem? && OutcomeAt(cfg, run, i).Ok?
  }

  /** The code generator never returns a code twice. */
  ghost predicate FreshCodes(cfg: Config, run: seq<Event>) {
    forall i, j | 0 <= i < j < |run| && SavedBy(cfg, run[i]).Some? && SavedBy(cfg, run[j]).Some? ::
      SavedBy(cfg, run[i]).value.code != SavedBy(cfg, run[j]).value.code
  }

  /** Position `j` is the consent behind a stored code. */
  ghost predicate IsConsent(cfg: Config, run: seq<Event>, j: nat, ac: AuthorizationCode) {
    j < |run| && SavedBy(cfg, run[j]) == Some(ac)
  }

  /** Every code in the store was saved, as it is, by some consent. */
  lemma {:induction false} CodesComeFromConsents(cfg: Config, run: seq<Event>, c: string) returns (j: nat)
    requires ValidConfig(cfg) && c in After(cfg, run).codes
    ensures IsConsent(cfg, run, j, After(cfg, run).codes[c]) && After(cfg, run).codes[c].code == c
  {
    var n := |run| - 1;
    var saved := SavedBy(cfg, run[n]);
    if saved.Some? && saved.value.code == c {
      j := n;
    } else {
      j := CodesComeFromConsents(cfg, run[..n], c);
      assert run[..n][j] == run[j];
    }
  }

  lemma RedeemedIsNotSavedAgain(cfg: Config, run: seq<Event>, i: nat, n: nat)
    requires ValidConfig(cfg) && FreshCodes(cfg, run) && i < n < |run| && Adds(cfg, run, i)
    requires SavedBy(cfg, run[n]).Some?
    ensures SavedBy(cfg, run[n]).value.code != run[i].request.value.code
  {
    RedemptionBurns(cfg, After(cfg, run[..i]), run[i]);
    var j := CodesComeFromConsents(cfg, run[..i], run[i].request.value.code);
    assert run[..i][j] == run[j];
  }

  /** An event brings no code into the store but the one it saves. */
  lemma MissingCodeStaysOut(cfg: Config, s: State, e: Event, code: string)
    requires ValidConfig(cfg) && code !in s.codes
    requires SavedBy(cfg, e).Some? ==> SavedBy(cfg, e).value.code != code
    ensures code !in Step(cfg, s, e).codes
  {}

  /** A redemption that succeeds finds its code and burns it. */
  lemma RedemptionBurns(cfg: Config, s: State, e: Event)
    requires ValidConfig(cfg) && e.Redeem? && Redeemed(cfg, s, e).1.Ok?
    ensures var code := e.request.value.code; code in s.codes && code !in Step(cfg, s, e).codes
  {}

  /** A code that is not in the store stays out until it is saved. */
  lemma {:induction false} CodeStaysOut(cfg: Config, run: seq<Event>, i: nat, n: nat, code: string)
    requires ValidConfig(cfg) && i < n <= |run| && code !in After(cfg, run[..i + 1]).codes
    requires forall k | i < k < n && SavedBy(cfg, run[k]).Some? :: SavedBy(cfg, run[k]).value.code != code
    ensures code !in After(cfg, run[..n]).codes
  {
    var m := n - 1;
    if i < m {
      CodeStaysOut(cfg, run, i, m, code);
      assert run[..n][..m] == run[..m];
      MissingCodeStaysOut(cfg, After(cfg, run[..m]), run[m], code);
    }
  }

  /** A redeemed code never returns to the store. */
  lemma RedeemedCodesStayOut(cfg: Config, run: seq<Event>, i: nat)
    requires ValidConfig(cfg) && FreshCodes(cfg, run) && i < |run| && Adds(cfg, run, i)
    ensures run[i].request.value.code !in After(cfg, run).codes
  {
    assert run[..i + 1][..i] == run[..i] && run[..|run|] == run;
    RedemptionBurns(cfg, After(cfg, run[..i]), run[i]);
    forall k | i < k < |run| && SavedBy(cfg, run[k]).Some?
      ensures SavedBy(cfg, run[k]).value.code != run[i].request.value.code
    {
      RedeemedIsNotSavedAgain(cfg, run, i, k);
    }
    CodeStaysOut(cfg, run, i, |run|, run[i].request.value.code);
  }

  /**
   Consent behind every record: a record that is added repeats the acid, uid, account, scope and D_enc
   of one saved consent, whose code the request named; that acid is the text of the very signature the
   RP proved possession of, and auid is H(uid) * sigma1 for that signature.
   */
  lemma ConsentBehindRecord(cfg: Config, run: seq<Event>, i: nat) returns (j: nat)
    requires ValidConfig(cfg) && i < |run| && Adds(cfg, run, i)
    ensures j < i && run[j].Authorize? && run[j].draw == Some(run[i].request.value.code) && run[j].dEnc != ""
    ensures var rec, p := OutcomeAt(cfg, run, i).value, run[i].request.value.proof.value;
            && rec.acid == run[j].acid && rec.uid == run[j].uid && rec.username == run[j].username
            && rec.scope == run[j].scope && rec.oprfEnc == run[j].dEnc && rec.email == EmailOf(cfg, run[j].username)
            && run[i].now <= run[j].now + CODE_TTL && run[i].minted == Some(rec.tokens)
            && LoginProof.Verdict(LoginProof.ChallengeOf(cfg.vk1, cfg.vk2, p), cfg.vk1, cfg.vk2, p) == Ok(())
            && ParseAcid(run[j].acid) == Some((G1ToString(p.sign1.sigma1), G1ToString(p.sign1.sigma2)))
            && rec.auid == G1ToString(ScalarMult(HashStringToScalar(run[j].uid), p.sign1.sigma1))
  {
    j := CodesComeFromConsents(cfg, run[..i], run[i].request.value.code);
    assert run[..i][j] == run[j];
  }

  /**
   The stored session key: over every run, a successful redemption whose key can be stored leaves the key
   of its own exchange behind, and no event but a redemption that passes every check changes it.
   */
  lemma SessionKeyKept(cfg: Config, run: seq<Event>, i: nat)
    requires ValidConfig(cfg) && i < |run|
    ensures var before, after := After(cfg, run[..i]).sessionKS, After(cfg, run[..i + 1]).sessionKS;
            && (Adds(cfg, run, i) && run[i].ksSaved ==>
                  var e2ee := run[i].request.value.e2ee.value;
                  after.Some? && SessionKey.GetSessionKey(cfg.identity, cfg.empkeys, e2ee) == Ok(after.value))
            && (after != before ==>
                  && run[i].Redeem? && run[i].ksSaved
                  && (Adds(cfg, run, i) || OutcomeAt(cfg, run, i) == Err(TokensNotGenerated)))
  {
    assert run[..i + 1][..i] == run[..i];
  }

  /** Position `j` is where the code that request `i` names was saved. */
  ghost predicate Behind(cfg: Config, run: seq<Event>, j: nat, i: nat) {
    && j < i < |run| && run[i].Redeem? && run[i].request.Some?
    && SavedBy(cfg, run[j]).Some? && SavedBy(cfg, run[j]).value.code == run[i].request.value.code
  }

  /** ... and no consent is behind two records: each has one consent behind it, and different ones differ. */
  lemma OneRecordPerConsent(cfg: Config, run: seq<Event>, i: nat, i': nat) returns (j: nat, j': nat)
    requires ValidConfig(cfg) && FreshCodes(cfg, run) && i < i' < |run| && Adds(cfg, run, i) && Adds(cfg, run, i')
    ensures forall m: nat :: Behind(cfg, run, m, i) <==> m == j
    ensures forall m: nat :: Behind(cfg, run, m, i') <==> m == j'
    ensures j != j'
  {
    j := ConsentBehindRecord(cfg, run, i);
    j' := ConsentBehindRecord(cfg, run, i');
    assert run[..i'][..i] == run[..i];
    RedeemedCodesStayOut(cfg, run[..i'], i);
  }

  predicate Redeems(e: Event, code: string) {
    e.Redeem? && e.request.Some? && e.request.value.code == code
  }

  /** The clock does not run backwards. */
  predicate Clocked(run: seq<Event>) {
    forall a, b | 0 <= a < b < |run| && !run[a].Revoke? && !run[b].Revoke? :: run[a].now <= run[b].now
  }

  /** No request between `j` and `n` redeems the code successfully. */
  ghost predicate Unredeemed(cfg: Config, run: seq<Event>, code: string, j: nat, n: nat)
    requires ValidConfig(cfg) && n <= |run|
  {
    forall k | j < k < n && Redeems(run[k], code) :: !Adds(cfg, run, k)
  }

  /** An event leaves a stored code alone unless it saves it again, redeems it, or finds it expired. */
  lemma CodeSurvivesStep(cfg: Config, s: State, e: Event, code: string)
    requires ValidConfig(cfg) && code in s.codes
    requires SavedBy(cfg, e).Some? ==> SavedBy(cfg, e).value.code != code
    requires Redeems(e, code) ==> Redeemed(cfg, s, e).1.Err? && e.now <= s.codes[code].expiresAt
    ensures code in Step(cfg, s, e).codes && Step(cfg, s, e).codes[code] == s.codes[code]
  {}

  /** A code stays in the store, as it was saved, until it is redeemed or has expired. */
  lemma {:induction false} CodeStays(cfg: Config, run: seq<Event>, j: nat, n: nat, ac: AuthorizationCode)
    requires ValidConfig(cfg) && FreshCodes(cfg, run) && j < n <= |run| && IsConsent(cfg, run, j, ac)
    requires Unredeemed(cfg, run, ac.code, j, n)
    requires forall k | j < k < n && Redeems(run[k], ac.code) :: run[k].now <= ac.expiresAt
    ensures ac.code in After(cfg, run[..n]).codes && After(cfg, run[..n]).codes[ac.code] == ac
  {
    var m := n - 1;
    assert run[..n][..m] == run[..m];
    if j < m {
      CodeStays(cfg, run, j, m, ac);
      CodeSurvivesStep(cfg, After(cfg, run[..m]), run[m], ac.code);
    }
  }

  /**
   When a redemption succeeds, exactly: the code's consent is at most five minutes old, no earlier
   request redeemed the code, proof, acid and key exchange check out, and tokens can be generated.
   Failed attempts before it, and whatever else happens, make no difference.
   */
  lemma RedemptionSucceedsIff(cfg: Config, run: seq<Event>, j: nat, i: nat, ac: AuthorizationCode)
    requires ValidConfig(cfg) && FreshCodes(cfg, run) && Clocked(run)
    requires j < i < |run| && IsConsent(cfg, run, j, ac) && Redeems(run[i], ac.code)
    ensures Adds(cfg, run, i)
       <==> && run[i].now <= run[j].now + CODE_TTL && Unredeemed(cfg, run, ac.code, j, i)
            && Checked(cfg, ac, run[i].request.value).Ok? && run[i].minted.Some?
  {
    if Adds(cfg, run, i) {
      var j' := CodesComeFromConsents(cfg, run[..i], ac.code);
      assert run[..i][j'] == run[j'] && j' == j;
      NotRedeemedBefore(cfg, run, j, i, ac.code);
    } else if run[i].now <= run[j].now + CODE_TTL && Unredeemed(cfg, run, ac.code, j, i) {
      CodeStays(cfg, run, j, i, ac);
    }
  }

  /** A code that is still redeemed was not redeemed before. */
  lemma NotRedeemedBefore(cfg: Config, run: seq<Event>, j: nat, i: nat, code: string)
    requires ValidConfig(cfg) && FreshCodes(cfg, run) && i < |run| && code in After(cfg, run[..i]).codes
    ensures Unredeemed(cfg, run, code, j, i)
  {
    forall k | j < k < i && Redeems(run[k], code)
      ensures !Adds(cfg, run, k)
    {
      if Adds(cfg, run, k) {
        assert run[..i][..k] == run[..k];
        RedeemedCodesStayOut(cfg, run[..i], k);
      }
    }
  }

  /** A failed redemption adds nothing, and takes nothing but an expired code. */
  lemma FailedRedemptionsAddNothing(cfg: Config, run: seq<Event>, i: nat)
    requires ValidConfig(cfg) && i < |run| && run[i].Redeem? && OutcomeAt(cfg, run, i).Err?
    ensures var before, after := After(cfg, run[..i]), After(cfg, run[..i + 1]);
            && after.messages == before.messages
            && after.codes == (if OutcomeAt(cfg, run, i) == Err(CodeExpired)
                               then before.codes - {run[i].request.value.code} else before.codes)
  {
    assert run[..i + 1][..i] == run[..i];
  }

  /** The text of a point determines it, so one acid and one user have one auid, and two users' scalars two. */
  lemma AuidOfAcid(cfg: Config, run: seq<Event>, i: nat, i': nat)
    requires ValidConfig(cfg) && i < |run| && i' < |run| && Adds(cfg, run, i) && Adds(cfg, run, i')
    requires OutcomeAt(cfg, run, i).value.acid == OutcomeAt(cfg, run, i').value.acid
    ensures var rec, rec' := OutcomeAt(cfg, run, i).value, OutcomeAt(cfg, run, i').value;
            var u, u' := HashStringToScalar(rec.uid), HashStringToScalar(rec'.uid);
            && (rec.uid == rec'.uid ==> rec.auid == rec'.auid)
            && (run[i].request.value.proof.value.sign1.sigma1 != 0 ==> (rec.auid == rec'.auid <==> u == u'))
  {
    var rec, rec' := OutcomeAt(cfg, run, i).value, OutcomeAt(cfg, run, i').value;
    var sigma1 := run[i].request.value.proof.value.sign1.sigma1;
    var sigma1' := run[i'].request.value.proof.value.sign1.sigma1;
    assert G1ToString(sigma1) == G1ToString(sigma1');
    var u, u' := HashStringToScalar(rec.uid), HashStringToScalar(rec'.uid);
    MulComm(u, sigma1);
    MulComm(u', sigma1);
    if sigma1 != 0 {
      MulCancel(u, u', sigma1);
    }
  }

  // ---------------------------------------------------------------- revocation and conservation

  /** Revocation removes exactly the first record of that user for that acid, keeping the order of the others. */
  lemma {:induction false} RemovesOnlyFirst(records: seq<Record>, acid: string) returns (k: nat)
    ensures k <= |records| && forall i | 0 <= i < k :: records[i].acid != acid
    ensures if k == |records| then RemoveFirst(records, acid) == records
            else records[k].acid == acid && RemoveFirst(records, acid) == records[..k] + records[k + 1..]
  {
    if records == [] || records[0].acid == acid {
      k := 0;
    } else {
      var rest := records[1..];
      var k1 := RemovesOnlyFirst(rest, acid);
      k := k1 + 1;
      FirstKept(records, rest, k1, acid);
    }
  }

  lemma FirstKept(records: seq<Record>, rest: seq<Record>, k: nat, acid: string)
    requires records != [] && records[0].acid != acid && rest == records[1..] && k <= |rest|
    ensures k < |rest| && RemoveFirst(rest, acid) == rest[..k] + rest[k + 1..] ==>
              RemoveFirst(records, acid) == records[..k + 1] + records[k + 2..]
    ensures RemoveFirst(rest, acid) == rest ==> RemoveFirst(records, acid) == records
  {
    if k < |rest| {
      assert [records[0]] + (rest[..k] + rest[k + 1..]) == records[..k + 1] + records[k + 2..];
    }
    assert [records[0]] + rest == records;
  }

  /** The records held for a user are the ones added at these positions. */
  ghost predicate Held(cfg: Config, run: seq<Event>, uid: string, records: seq<Record>, at: seq<nat>)
    requires ValidConfig(cfg)
  {
    && |at| == |records|
    && (forall k | 0 <= k < |at| :: at[k] < |run| && AddsFor(cfg, run, at[k], uid))
    && (forall k | 0 <= k < |at| :: OutcomeAt(cfg, run, at[k]).value == records[k])
    && (forall k, l | 0 <= k < l < |at| :: at[k] < at[l])
  }

  /**
   Conservation: after any run, the records held for a user are ones added at pairwise different
   positions for that user, in the order they were added.
   */
  lemma {:induction false} RecordsWereAdded(cfg: Config, run: seq<Event>, uid: string) returns (at: seq<nat>)
    requires ValidConfig(cfg)
    ensures Held(cfg, run, uid, RecordsOf(After(cfg, run).messages, uid), at)
  {
    if run == [] {
      at := [];
    } else {
      var n := |run| - 1;
      at := RecordsWereAdded(cfg, run[..n], uid);
      var records := RecordsOf(After(cfg, run[..n]).messages, uid);
      HeldLonger(cfg, run, n, uid, records, at);
      RecordsStep(cfg, run, uid);
      if AddsFor(cfg, run, n, uid) {
        HeldOneMore(cfg, run, n, uid, records, at);
        at := at + [n];
      } else if RevokesFor(run[n], uid) {
        var k := RemovesOnlyFirst(records, run[n].path);
        if k < |records| {
          HeldOneLess(cfg, run, uid, records, at, k);
          at := at[..k] + at[k + 1..];
        }
      }
    }
  }

  lemma HeldOneMore(cfg: Config, run: seq<Event>, n: nat, uid: string, records: seq<Record>, at: seq<nat>)
    requires ValidConfig(cfg) && n < |run| && AddsFor(cfg, run, n, uid)
    requires Held(cfg, run, uid, records, at) && forall k | 0 <= k < |at| :: at[k] < n
    ensures Held(cfg, run, uid, records + [OutcomeAt(cfg, run, n).value], at + [n])
  {}

  lemma HeldOneLess(cfg: Config, run: seq<Event>, uid: string, records: seq<Record>, at: seq<nat>, k: nat)
    requires ValidConfig(cfg) && k < |records| && Held(cfg, run, uid, records, at)
    ensures Held(cfg, run, uid, records[..k] + records[k + 1..], at[..k] + at[k + 1..])
  {
    var records', at' := records[..k] + records[k + 1..], at[..k] + at[k + 1..];
    forall m | 0 <= m < |at'|
      ensures at'[m] < |run| && AddsFor(cfg, run, at'[m], uid) && OutcomeAt(cfg, run, at'[m]).value == records'[m]
    {
      DropAt(at, k, m);
      DropAt(records, k, m);
    }
    forall m, l | 0 <= m < l < |at'|
      ensures at'[m] < at'[l]
    {
      DropAt(at, k, m);
      DropAt(at, k, l);
    }
  }

  lemma DropAt<T>(s: seq<T>, k: nat, m: nat)
    requires k < |s| && m < |s| - 1
    ensures (s[..k] + s[k + 1..])[m] == s[if m < k then m else m + 1]
  {}

  ghost predicate AddsFor(cfg: Config, run: seq<Event>, i: nat, uid: string)
    requires ValidConfig(cfg) && i < |run|
  {
    Adds(cfg, run, i) && OutcomeAt(cfg, run, i).value.uid == uid
  }

  predicate RevokesFor(e: Event, uid: string) {
    e.Revoke? && e.sessionUid == uid && e.path != ""
  }

  /** What one event does to the records held for one user. */
  lemma RecordsStep(cfg: Config, run: seq<Event>, uid: string)
    requires ValidConfig(cfg) && run != []
    ensures var n := |run| - 1;
            var records := RecordsOf(After(cfg, run[..n]).messages, uid);
            RecordsOf(After(cfg, run).messages, uid)
            == if AddsFor(cfg, run, n, uid) then records + [OutcomeAt(cfg, run, n).value]
               else if RevokesFor(run[n], uid) then RemoveFirst(records, run[n].path)
               else records
  {
    var n := |run| - 1;
    MessagesStep(cfg, After(cfg, run[..n]), run[n]);
  }

  lemma MessagesStep(cfg: Config, s: State, e: Event)
    requires ValidConfig(cfg)
    ensures Step(cfg, s, e).messages
         == match e
            case Authorize(_, _, _, _, _, _, _) => s.messages
            case Redeem(_, _, _, _) =>
              var r := Redeemed(cfg, s, e).1;
              if r.Ok? then WithRecord(s.messages, r.value) else s.messages
            case Revoke(uid, acid) => if acid == "" then s.messages else Revoked(s.messages, uid, acid)
  {}

  lemma HeldLonger(cfg: Config, run: seq<Event>, n: nat, uid: string, records: seq<Record>, at: seq<nat>)
    requires ValidConfig(cfg) && n <= |run| && Held(cfg, run[..n], uid, records, at)
    ensures Held(cfg, run, uid, records, at) && forall k | 0 <= k < |at| :: at[k] < n
  {
    forall k | 0 <= k < |at|
      ensures at[k] < n && AddsFor(cfg, run, at[k], uid) && OutcomeAt(cfg, run, at[k]).value == records[k]
    {
      assert run[..n][..at[k]] == run[..at[k]];
    }
  }

  ghost predicate HasAcid(records: seq<Record>, acid: string) {
    exists rec :: rec in records && rec.acid == acid
  }

  function CountAcid(records: seq<Record>, acid: string): nat {
    if records == [] then 0
    else CountAcid(records[..|records| - 1], acid) + if records[|records| - 1].acid == acid then 1 else 0
  }

  /** How many of the events add a record for this user and acid, less the revocations that found one. */
  ghost function Balance(cfg: Config, run: seq<Event>, uid: string, acid: string): int
    requires ValidConfig(cfg)
  {
    if run == [] then 0
    else
      var n := |run| - 1;
      var adds := AddsFor(cfg, run, n, uid) && OutcomeAt(cfg, run, n).value.acid == acid;
      var drops := RevokesFor(run[n], uid) && run[n].path == acid
                   && HasAcid(RecordsOf(After(cfg, run[..n]).messages, uid), acid);
      Balance(cfg, run[..n], uid, acid) + (if adds then 1 else 0) - (if drops then 1 else 0)
  }

  lemma {:induction false} CountSplits(a: seq<Record>, b: seq<Record>, acid: string)
    ensures CountAcid(a + b, acid) == CountAcid(a, acid) + CountAcid(b, acid)
  {
    if b == [] {
      assert a + b == a;
    } else {
      var m := |b| - 1;
      assert (a + b)[..|a + b| - 1] == a + b[..m];
      CountSplits(a, b[..m], acid);
    }
  }

  lemma {:induction false} CountZero(records: seq<Record>, acid: string)
    ensures CountAcid(records, acid) > 0 <==> HasAcid(records, acid)
  {
    if records != [] {
      var m := |records| - 1;
      CountZero(records[..m], acid);
      assert records == records[..m] + [records[m]];
    }
  }

  /** Removing the first match takes one off its own count and leaves the others alone. */
  lemma RemovalCounts(records: seq<Record>, acid: string, other: string)
    ensures CountAcid(RemoveFirst(records, acid), other)
         == CountAcid(records, other)
            - if other == acid && HasAcid(records, acid) then 1 else 0
  {
    var k := RemovesOnlyFirst(records, acid);
    if k < |records| {
      assert records == records[..k] + [records[k]] + records[k + 1..];
      CountWithout(records[..k], records[k], records[k + 1..], other);
    }
  }

  lemma CountWithout(front: seq<Record>, rec: Record, back: seq<Record>, acid: string)
    ensures CountAcid(front + [rec] + back, acid) == CountAcid(front + back, acid) + if rec.acid == acid then 1 else 0
  {
    CountSplits(front, back, acid);
    CountSplits(front + [rec], back, acid);
    CountOfAdded(front, rec, acid);
  }

  /** Nothing is lost and nothing appears: what is held is what was added less what was revoked. */
  lemma {:induction false} RecordsBalance(cfg: Config, run: seq<Event>, uid: string, acid: string)
    requires ValidConfig(cfg)
    ensures CountAcid(RecordsOf(After(cfg, run).messages, uid), acid) == Balance(cfg, run, uid, acid)
  {
    if run != [] {
      var n := |run| - 1;
      var records := RecordsOf(After(cfg, run[..n]).messages, uid);
      RecordsBalance(cfg, run[..n], uid, acid);
      RecordsStep(cfg, run, uid);
      if AddsFor(cfg, run, n, uid) {
        CountOfAdded(records, OutcomeAt(cfg, run, n).value, acid);
      } else if RevokesFor(run[n], uid) {
        RemovalCounts(records, run[n].path, acid);
      }
    }
  }

  lemma CountOfAdded(records: seq<Record>, rec: Record, acid: string)
    ensures CountAcid(records + [rec], acid) == CountAcid(records, acid) + if rec.acid == acid then 1 else 0
  {
    assert (records + [rec])[..|records|] == records;
  }
}

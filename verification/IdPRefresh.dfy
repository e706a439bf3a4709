/** The IdP half of the token-refresh ratchet (IdP/refresh.go). */
module IdPRefresh {
  import opened Wrappers
  import opened RatchetKeys

  datatype Error =
    | NilRequest | MissingHdr | MissingRefreshToken | NoTokenHelper | InvalidHdrBytes
    | InvalidRefreshToken | MintFailed

  /** What the token helper makes of the refresh token: a freshly minted access token or an error. */
  type Minted = Result<string, Error>

  datatype State = State(seeded: bool, rk: Key, ck: Key, dhA: Option<Pub>, isk: nat)

  const ACCESS_TOKEN_LIFETIME := 1800

  function Fresh(isk: nat): State {
    State(false, NoKey, NoKey, None, isk)
  }

  /** Seeds the root key on the first request. */
  function Seeded(s: State, sessionKS: Key): State {
    if s.seeded then s else s.(rk := sessionKS, seeded := true)
  }

  /** The DH step, taken exactly when the RP's header differs from the last one. */
  function DHStep(s: State, pk: Pub, freshSk: nat): State {
    if s.dhA == Some(pk) then s
    else
      var (rk, ck) := KdfRK(s.rk, DH(freshSk, pk));
      State(s.seeded, rk, ck, Some(pk), freshSk)
  }

  /** Everything a well-formed request does to the key schedule, before the token is validated. */
  function Ratchet(s: State, pk: Pub, sessionKS: Key, freshSk: nat): State {
    var t := DHStep(Seeded(s, sessionKS), pk, freshSk);
    t.(ck := KdfCK(t.ck).0)
  }

  /** The key that seals the reply to a well-formed request. */
  function MessageKey(s: State, pk: Pub, sessionKS: Key, freshSk: nat): Key {
    KdfCK(DHStep(Seeded(s, sessionKS), pk, freshSk).ck).1
  }

  function Handle(s: State, hasTokenHelper: bool, req: Option<Request>, sessionKS: Key, freshSk: nat, minted: Minted)
    : (State, Result<Reply, Error>)
  {
    if req.None? then (s, Err(NilRequest))
    else if req.value.hdr.Absent? then (s, Err(MissingHdr))
    else if req.value.refreshToken == "" then (s, Err(MissingRefreshToken))
    else if !hasTokenHelper then (s, Err(NoTokenHelper))
    else if req.value.hdr.Malformed? then (Seeded(s, sessionKS), Err(InvalidHdrBytes))
    else
      var pk := req.value.hdr.pk;
      var t := Ratchet(s, pk, sessionKS, freshSk);
      match minted
      case Err(e) => (t, Err(e))
      case Ok(token) =>
        var c := Sealed(MessageKey(s, pk, sessionKS, freshSk), Payload(token, ACCESS_TOKEN_LIFETIME),
                        Aad(req.value.hdr, req.value.seqNo));
        (t, Ok(Reply(Point(Pub(t.isk)), req.value.seqNo, c)))
  }

  class RefreshTokenHelper {
    var rk: Key
    var ck: Key
    var seeded: bool
    var dhA: Option<Pub>
    var isk: nat
    var ipk: Pub
    const hasTokenHelper: bool

    ghost predicate Valid()
      reads this
    {
      ipk == Pub(isk)
    }

    ghost function View(): State
      reads this
    {
      State(seeded, rk, ck, dhA, isk)
    }

    constructor (hasTokenHelper: bool, freshSk: nat)
      ensures Valid() && View() == Fresh(freshSk) && this.hasTokenHelper == hasTokenHelper
    {
      rk, ck, seeded, dhA := NoKey, NoKey, false, None;
      isk, ipk := freshSk, Pub(freshSk);
      this.hasTokenHelper := hasTokenHelper;
    }

    method TakeDHStep(rpPk: Pub, freshSk: nat)
      requires Valid()
      modifies this
      ensures Valid() && View() == DHStep(old(View()), rpPk, freshSk)
    {
      if dhA.None? || dhA.value != rpPk {
        dhA := Some(rpPk);
        isk, ipk := freshSk, Pub(freshSk);
        var dh := DH(isk, dhA.value);
        var (newRK, newCK) := KdfRK(rk, dh);
        rk, ck := newRK, newCK;
      }
    }

    /** `sessionKS` is what the key storage holds, `freshSk` what the key generator would draw. */
    method HandleBrokerRequest(req: Option<Request>, sessionKS: Key, freshSk: nat, minted: Minted)
      returns (r: Result<Reply, Error>)
      requires Valid()
      modifies this
      ensures Valid()
      ensures (View(), r) == Handle(old(View()), hasTokenHelper, req, sessionKS, freshSk, minted)
    {
      if req.None? { return Err(NilRequest); }
      var Request(hdr, seqNo, refreshToken) := req.value;
      if hdr.Absent? { return Err(MissingHdr); }
      if refreshToken == "" { return Err(MissingRefreshToken); }
      if !hasTokenHelper { return Err(NoTokenHelper); }
      if !seeded {
        rk := sessionKS;
        seeded := true;
      }
      if hdr.Malformed? { return Err(InvalidHdrBytes); }
      var rpPk := hdr.pk;
      TakeDHStep(rpPk, freshSk);
      var (newCK, mk) := KdfCK(ck);
      ck := newCK;
      if minted.Err? { return Err(minted.error); }
      var payload := Payload(minted.value, ACCESS_TOKEN_LIFETIME);
      return Ok(Reply(Point(ipk), seqNo, Sealed(mk, payload, Aad(hdr, seqNo))));
    }
  }

  // ---------------------------------------------------------------- whole runs

  /** One call of the handler together with everything it draws from its surroundings. */
  datatype Call = Call(req: Option<Request>, sessionKS: Key, freshSk: nat, minted: Minted)

  /** The state after a run of arbitrary calls, from a helper just created. */
  function After(isk: nat, hasTokenHelper: bool, calls: seq<Call>): State {
    if calls == [] then Fresh(isk)
    else
      var n := |calls| - 1;
      var c := calls[n];
      Handle(After(isk, hasTokenHelper, calls[..n]), hasTokenHelper, c.req, c.sessionKS, c.freshSk, c.minted).0
  }

  /** What call `i` of a run answers. */
  function Answer(isk: nat, hasTokenHelper: bool, calls: seq<Call>, i: nat): Result<Reply, Error>
    requires i < |calls|
  {
    var c := calls[i];
    Handle(After(isk, hasTokenHelper, calls[..i]), hasTokenHelper, c.req, c.sessionKS, c.freshSk, c.minted).1
  }

  /** Whether a call gets as far as the ratchet, whatever it answers. */
  predicate Ratchets(hasTokenHelper: bool, c: Call) {
    hasTokenHelper && c.req.Some? && c.req.value.hdr.Point? && c.req.value.refreshToken != ""
  }

  /**
   Once a DH step was taken the root key comes from one, and the chain key is some number of
   symmetric steps away from the chain key born beside it; before that there is no chain key.
   */
  ghost predicate WellFormed(s: State) {
    if s.dhA.None? then s.ck == NoKey && (if s.seeded then s.rk.Seed? else s.rk == NoKey)
    else s.seeded && s.rk.Root? && s.ck == Advance(ChainBeside(s.rk), Steps(s.ck))
  }

  /** The number of symmetric steps on top of a chain key. */
  ghost function Steps(ck: Key): nat {
    if ck.Next? then 1 + Steps(ck.ck) else 0
  }

  lemma {:induction false} StepsOfAdvance(rk: Key, n: nat)
    requires rk.Root?
    ensures Steps(Advance(ChainBeside(rk), n)) == n
  {
    if n > 0 {
      StepsOfAdvance(rk, n - 1);
    }
  }

  /** State `t` lies later in the key schedule than `s`: more DH steps, or as many and more symmetric ones. */
  ghost predicate Later(s: State, t: State) {
    Depth(s.rk) < Depth(t.rk) || (s.rk == t.rk && Steps(s.ck) < Steps(t.ck))
  }

  ghost predicate SeededByKS(calls: seq<Call>) {
    forall i | 0 <= i < |calls| :: calls[i].sessionKS.Seed?
  }

  /**
   One call keeps the schedule well formed and moves it forward exactly when it ratchets; its message
   key then sits one step before the new chain key, so the zero-key fallback of the KDF is not taken.
   */
  lemma OneCall(s: State, hasTokenHelper: bool, c: Call)
    requires WellFormed(s) && c.sessionKS.Seed?
    ensures var t := Handle(s, hasTokenHelper, c.req, c.sessionKS, c.freshSk, c.minted).0;
            && WellFormed(t)
            && (Ratchets(hasTokenHelper, c) ==>
                  && Later(s, t) && t.dhA.Some?
                  && DHStep(Seeded(s, c.sessionKS), c.req.value.hdr.pk, c.freshSk).ck != NoKey
                  && Next(MessageKey(s, c.req.value.hdr.pk, c.sessionKS, c.freshSk).ck) == t.ck)
            && (!Ratchets(hasTokenHelper, c) ==> t == s || t == Seeded(s, c.sessionKS))
  {
    if Ratchets(hasTokenHelper, c) {
      var d := DHStep(Seeded(s, c.sessionKS), c.req.value.hdr.pk, c.freshSk);
      var n := if s.dhA == Some(c.req.value.hdr.pk) then Steps(s.ck) else 0;
      assert d.ck == Advance(ChainBeside(d.rk), n);
      StepsOfAdvance(d.rk, n + 1);
      assert Next(d.ck) == Advance(ChainBeside(d.rk), n + 1);
    }
  }

  lemma {:induction false} RunsAreWellFormed(isk: nat, hasTokenHelper: bool, calls: seq<Call>)
    requires SeededByKS(calls)
    ensures WellFormed(After(isk, hasTokenHelper, calls))
  {
    if calls != [] {
      var n := |calls| - 1;
      RunsAreWellFormed(isk, hasTokenHelper, calls[..n]);
      OneCall(After(isk, hasTokenHelper, calls[..n]), hasTokenHelper, calls[n]);
    }
  }

  /** Over every run, every call starts from a well-formed schedule, and moves it forward exactly when it ratchets. */
  lemma EveryCallKeepsSchedule(isk: nat, hasTokenHelper: bool, calls: seq<Call>, i: nat)
    requires i < |calls| && SeededByKS(calls)
    ensures var s, t := After(isk, hasTokenHelper, calls[..i]), After(isk, hasTokenHelper, calls[..i + 1]);
            && WellFormed(s) && WellFormed(t)
            && (Ratchets(hasTokenHelper, calls[i]) <==> Later(s, t))
            && (Ratchets(hasTokenHelper, calls[i]) ==>
                  DHStep(Seeded(s, calls[i].sessionKS), calls[i].req.value.hdr.pk, calls[i].freshSk).ck != NoKey)
  {
    RunsAreWellFormed(isk, hasTokenHelper, calls[..i]);
    assert calls[..i + 1][..i] == calls[..i];
    OneCall(After(isk, hasTokenHelper, calls[..i]), hasTokenHelper, calls[i]);
  }

  /** Between the end of call `i` and the start of call `j` the schedule stays put or moves forward. */
  lemma {:induction false} ScheduleMovesForward(isk: nat, hasTokenHelper: bool, calls: seq<Call>, i: nat, j: nat)
    requires i < j <= |calls| && SeededByKS(calls)
    requires Ratchets(hasTokenHelper, calls[i])
    ensures var s := After(isk, hasTokenHelper, calls[..i + 1]);
            var t := After(isk, hasTokenHelper, calls[..j]);
            WellFormed(t) && t.dhA.Some? && ((s.rk == t.rk && s.ck == t.ck) || Later(s, t))
  {
    var s := After(isk, hasTokenHelper, calls[..j - 1]);
    RunsAreWellFormed(isk, hasTokenHelper, calls[..j - 1]);
    assert calls[..j][..j - 1] == calls[..j - 1];
    OneCall(s, hasTokenHelper, calls[j - 1]);
    if i + 1 < j {
      ScheduleMovesForward(isk, hasTokenHelper, calls, i, j - 1);
    }
  }

  /** The key call `i` of a run seals its reply under. */
  ghost function KeyOf(isk: nat, hasTokenHelper: bool, calls: seq<Call>, i: nat): Key
    requires i < |calls| && Answer(isk, hasTokenHelper, calls, i).Ok?
  {
    Answer(isk, hasTokenHelper, calls, i).value.c.key
  }

  /**
   Message keys never repeat: whatever requests arrive, and however the DH keys are drawn, no two
   replies of a run are sealed under the same key, and none under a key of the zero-key fallback.
   */
  lemma MessageKeysNeverRepeat(isk: nat, hasTokenHelper: bool, calls: seq<Call>)
    requires SeededByKS(calls)
    ensures forall i, j | 0 <= i < j < |calls|
              && Answer(isk, hasTokenHelper, calls, i).Ok? && Answer(isk, hasTokenHelper, calls, j).Ok? ::
              KeyOf(isk, hasTokenHelper, calls, i) != KeyOf(isk, hasTokenHelper, calls, j)
    ensures forall i | 0 <= i < |calls| && Answer(isk, hasTokenHelper, calls, i).Ok? ::
              KeyOf(isk, hasTokenHelper, calls, i) != Message(ZeroKey)
  {
    forall i | 0 <= i < |calls| && Answer(isk, hasTokenHelper, calls, i).Ok?
      ensures KeyOf(isk, hasTokenHelper, calls, i) != Message(ZeroKey)
    {
      RunsAreWellFormed(isk, hasTokenHelper, calls[..i]);
      OneCall(After(isk, hasTokenHelper, calls[..i]), hasTokenHelper, calls[i]);
    }
    forall i, j | 0 <= i < j < |calls|
      && Answer(isk, hasTokenHelper, calls, i).Ok? && Answer(isk, hasTokenHelper, calls, j).Ok?
      ensures KeyOf(isk, hasTokenHelper, calls, i) != KeyOf(isk, hasTokenHelper, calls, j)
    {
      KeysDiffer(isk, hasTokenHelper, calls, i, j);
    }
  }

  /**
   Reply keys stay apart from the state: over every run, no reply is sealed under a key the IdP holds as
   chain key or root key before, then or later, or under the session key it was seeded with.
   */
  lemma MessageKeysAreNotState(isk: nat, hasTokenHelper: bool, calls: seq<Call>, i: nat, j: nat)
    requires i < |calls| && j <= |calls| && SeededByKS(calls) && Answer(isk, hasTokenHelper, calls, i).Ok?
    ensures KeyOf(isk, hasTokenHelper, calls, i) != After(isk, hasTokenHelper, calls[..j]).ck
    ensures KeyOf(isk, hasTokenHelper, calls, i) != After(isk, hasTokenHelper, calls[..j]).rk
    ensures forall k | 0 <= k < |calls| :: KeyOf(isk, hasTokenHelper, calls, i) != calls[k].sessionKS
  {
    RunsAreWellFormed(isk, hasTokenHelper, calls[..j]);
  }

  /**
   A successful reply, written out. It carries the IdP's present public key and the request's sequence
   number, and seals the minted token with its lifetime, under the message key of the chain key just
   left behind, bound to the request's header and sequence number. A new header mixes a DH with a newly
   drawn key pair into the root key; a known one changes the chain key only.
   */
  lemma ReplyWrittenOut(s: State, hasTokenHelper: bool, req: Option<Request>, sessionKS: Key, freshSk: nat,
                        minted: Minted)
    requires WellFormed(s) && sessionKS.Seed?
    ensures var (t, r) := Handle(s, hasTokenHelper, req, sessionKS, freshSk, minted);
            && (r.Ok? <==> hasTokenHelper && minted.Ok?
                           && req.Some? && req.value.hdr.Point? && req.value.refreshToken != "")
            && (r.Ok? ==>
                  && r.value.hdr == Point(Pub(t.isk)) && r.value.seqNo == req.value.seqNo
                  && t.ck.Next?
                  && r.value.c == Sealed(Message(t.ck.ck), Payload(minted.value, 1800),
                                         Aad(req.value.hdr, req.value.seqNo))
                  && t.dhA == Some(req.value.hdr.pk)
                  && if s.dhA == t.dhA then t.rk == s.rk && t.isk == s.isk && t.ck == Next(s.ck)
                     else
                       var prev, dh := if s.seeded then s.rk else sessionKS, DH(freshSk, req.value.hdr.pk);
                       t.isk == freshSk && t.rk == Root(prev, dh) && t.ck == Next(Chain(prev, dh)))
  {}

  lemma KeysDiffer(isk: nat, hasTokenHelper: bool, calls: seq<Call>, i: nat, j: nat)
    requires i < j < |calls| && SeededByKS(calls)
    requires Answer(isk, hasTokenHelper, calls, i).Ok? && Answer(isk, hasTokenHelper, calls, j).Ok?
    ensures KeyOf(isk, hasTokenHelper, calls, i) != KeyOf(isk, hasTokenHelper, calls, j)
  {
    var s, t := After(isk, hasTokenHelper, calls[..i + 1]), After(isk, hasTokenHelper, calls[..j]);
    ScheduleMovesForward(isk, hasTokenHelper, calls, i, j);
    RunsAreWellFormed(isk, hasTokenHelper, calls[..i]);
    OneCall(After(isk, hasTokenHelper, calls[..i]), hasTokenHelper, calls[i]);
    assert calls[..i + 1][..i] == calls[..i];
    assert s.ck == Next(KeyOf(isk, hasTokenHelper, calls, i).ck);
    OneCall(t, hasTokenHelper, calls[j]);
    assert calls[..j + 1][..j] == calls[..j];
    var u := After(isk, hasTokenHelper, calls[..j + 1]);
    assert u.ck == Next(KeyOf(isk, hasTokenHelper, calls, j).ck);
    assert Later(s, u);
    AdvanceInjective(s.rk, Steps(s.ck), u.rk, Steps(u.ck));
  }
}

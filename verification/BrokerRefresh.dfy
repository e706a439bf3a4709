/** The broker's position in each RP's prekey list, and the relay to the IdP (Broker/refresh.go). */
module BrokerRefresh {
  import opened Wrappers
  import opened RatchetKeys

  datatype Error = MissingTid | MissingRefreshToken | MissingPrekeys | PrekeysExhausted | IdPFailed

  datatype BrokerState = BrokerState(seqNo: Uint32, rpDHPks: seq<Header>, lastIdPHdr: Header)

  /** The position of one RP: absent until its first refresh or registration. */
  type Position = Option<BrokerState>

  /** What the POST to the IdP comes back with. */
  type Answer = Result<Reply, Error>

  function Registered(p: Position, tid: string, rpDHPks: seq<Header>): Position {
    if tid == "" || rpDHPks == [] then p else Some(BrokerState(0, rpDHPks, Absent))
  }

  function Ensured(p: Position, rpDHPks: seq<Header>): Position {
    if p.Some? && p.value.rpDHPks != [] then p
    else if rpDHPks == [] then p
    else Some(BrokerState(0, rpDHPks, Absent))
  }

  /** The request a refresh puts to the IdP, or why it is refused before the IdP is contacted. */
  function Outgoing(p: Position, tid: string, rpDHPks: seq<Header>, refreshToken: string): Result<Request, Error> {
    if tid == "" then Err(MissingTid)
    else if refreshToken == "" then Err(MissingRefreshToken)
    else
      var q := Ensured(p, rpDHPks);
      if q.None? || q.value.rpDHPks == [] then Err(MissingPrekeys)
      else if q.value.seqNo >= |q.value.rpDHPks| then Err(PrekeysExhausted)
      else Ok(Request(q.value.rpDHPks[q.value.seqNo], q.value.seqNo, refreshToken))
  }

  /** What the IdP's answer, or its absence, makes of the state it was asked from. */
  function Answered(s: BrokerState, answer: Answer): BrokerState {
    if answer.Err? then s else s.(seqNo := (s.seqNo + 1) % 0x1_0000_0000, lastIdPHdr := answer.value.hdr)
  }

  /** The position after a refresh: it moves only when the IdP's answer arrives. */
  function Refreshed(p: Position, tid: string, rpDHPks: seq<Header>, refreshToken: string, answer: Answer): Position {
    if tid == "" || refreshToken == "" then p
    else
      var q := Ensured(p, rpDHPks);
      if Outgoing(p, tid, rpDHPks, refreshToken).Ok? && q.Some? then Some(Answered(q.value, answer)) else q
  }

  /** The same with a registration that may arrive between the request and its answer. */
  function RefreshedAmid(p: Position, tid: string, rpDHPks: seq<Header>, refreshToken: string, answer: Answer,
                         during: Option<seq<Header>>): Position {
    var q := Refreshed(p, tid, rpDHPks, refreshToken, answer);
    if during.Some? && Outgoing(p, tid, rpDHPks, refreshToken).Ok? then Registered(q, tid, during.value) else q
  }

  class BrokerRefreshState {
    var seqNo: Uint32
    var rpDHPks: seq<Header>
    var lastIdPHdr: Header

    ghost function View(): BrokerState
      reads this
    {
      BrokerState(seqNo, rpDHPks, lastIdPHdr)
    }

    constructor (rpDHPks: seq<Header>)
      ensures View() == BrokerState(0, rpDHPks, Absent)
    {
      seqNo, this.rpDHPks, lastIdPHdr := 0, rpDHPks, Absent;
    }
  }

  class RefreshTokenHelper {
    var st: map<string, BrokerRefreshState>

    /** No two RPs share a state object. */
    ghost predicate Valid()
      reads this
    {
      forall t, u | t in st && u in st && t != u :: st[t] != st[u]
    }

    ghost function At(tid: string): Position
      reads this, st.Values
    {
      if tid in st then Some(st[tid].View()) else None
    }

    constructor ()
      ensures Valid() && st == map[]
    {
      st := map[];
    }

    method InitForRP(tid: string, rpDHPks: seq<Header>)
      requires Valid()
      modifies this
      ensures Valid() && fresh(st.Values - old(st.Values))
      ensures if tid == "" || rpDHPks == [] then st == old(st)
              else tid in st && fresh(st[tid]) && st == old(st)[tid := st[tid]]
      ensures At(tid) == Registered(old(At(tid)), tid, rpDHPks)
      ensures tid != "" && rpDHPks != [] ==> At(tid) == Some(BrokerState(0, rpDHPks, Absent))
      ensures forall other | other != tid :: At(other) == old(At(other))
    {
      if tid == "" || |rpDHPks| == 0 { return; }
      var s := new BrokerRefreshState(rpDHPks);
      st := st[tid := s];
    }

    method EnsureState(tid: string, rpDHPks: seq<Header>) returns (r: Result<BrokerRefreshState, Error>)
      requires Valid()
      modifies this
      ensures Valid() && fresh(st.Values - old(st.Values))
      ensures st == old(st) || (tid in st && fresh(st[tid]) && st == old(st)[tid := st[tid]])
      ensures At(tid) == Ensured(old(At(tid)), rpDHPks)
      ensures forall other | other != tid :: At(other) == old(At(other))
      ensures if At(tid).Some? && At(tid).value.rpDHPks != [] then r == Ok(st[tid]) else r == Err(MissingPrekeys)
    {
      if tid in st && |st[tid].rpDHPks| > 0 { return Ok(st[tid]); }
      if |rpDHPks| == 0 { return Err(MissingPrekeys); }
      var s := new BrokerRefreshState(rpDHPks);
      st := st[tid := s];
      return Ok(s);
    }

    /**
     `answer` is what the POST yields if it is made; `sent` is the request it is made with. `during` is a
     registration of the same RP that arrives while the POST is under way: it wins, as the answer then
     advances a state object that is no longer in use.
     */
    method RefreshWithIdP(tid: string, rpDHPks: seq<Header>, refreshToken: string, answer: Answer,
                          during: Option<seq<Header>>)
      returns (sent: Option<Request>, r: Result<Reply, Error>)
      requires Valid()
      modifies this, st.Values
      ensures Valid()
      ensures var out := Outgoing(old(At(tid)), tid, rpDHPks, refreshToken);
              if out.Ok? then sent == Some(out.value) && r == answer else sent == None && r == Err(out.error)
      ensures At(tid) == RefreshedAmid(old(At(tid)), tid, rpDHPks, refreshToken, answer, during)
      ensures forall other | other != tid :: At(other) == old(At(other))
    {
      if tid == "" { return None, Err(MissingTid); }
      if refreshToken == "" { return None, Err(MissingRefreshToken); }
      var ensured := EnsureState(tid, rpDHPks);
      if ensured.Err? { return None, Err(ensured.error); }
      var state := ensured.value;
      if state.seqNo >= |state.rpDHPks| { return None, Err(PrekeysExhausted); }
      sent := Some(Request(state.rpDHPks[state.seqNo], state.seqNo, refreshToken));
      Post(tid, answer, during);
      r := answer;
    }

    /** From sending the request on: a registration may come first, then the answer advances the old state. */
    method Post(tid: string, answer: Answer, during: Option<seq<Header>>)
      requires Valid() && tid in st
      modifies this, st.Values
      ensures Valid()
      ensures var p := Some(Answered(old(st[tid].View()), answer));
              At(tid) == if during.Some? then Registered(p, tid, during.value) else p
      ensures forall other | other != tid :: At(other) == old(At(other))
    {
      var state := st[tid];
      if during.Some? {
        InitForRP(tid, during.value);
      }
      if answer.Err? { return; }
      state.lastIdPHdr := answer.value.hdr;
      state.seqNo := (state.seqNo + 1) % 0x1_0000_0000;
    }
  }

  /**
   A refresh, written out: it is sent iff tid, token and prekeys are there and not used up, with the
   prekey at the position; an answer moves the position by one, modulo 2^32, and is remembered.
   */
  lemma RefreshWrittenOut(p: Position, tid: string, rpDHPks: seq<Header>, refreshToken: string, answer: Answer)
    ensures var out, q := Outgoing(p, tid, rpDHPks, refreshToken), Refreshed(p, tid, rpDHPks, refreshToken, answer);
            var known := p.Some? && p.value.rpDHPks != [];
            var pks, n := if known then p.value.rpDHPks else rpDHPks, if known then p.value.seqNo else 0;
            && (out.Ok? <==> tid != "" && refreshToken != "" && n < |pks|)
            && (out.Ok? ==>
                  && out.value == Request(pks[n], n, refreshToken)
                  && q == Some(if answer.Ok? then BrokerState((n + 1) % 0x1_0000_0000, pks, answer.value.hdr)
                               else BrokerState(n, pks, if known then p.value.lastIdPHdr else Absent)))
  {}

  // ---------------------------------------------------------------- runs

  /** One refresh call for a fixed RP. */
  datatype Call = Call(rpDHPks: seq<Header>, refreshToken: string, answer: Answer)

  function After(p: Position, tid: string, calls: seq<Call>): Position {
    if calls == [] then p
    else
      var c := calls[|calls| - 1];
      Refreshed(After(p, tid, calls[..|calls| - 1]), tid, c.rpDHPks, c.refreshToken, c.answer)
  }

  /** Whether call `i` is relayed and answered. */
  predicate Succeeds(p: Position, tid: string, calls: seq<Call>, i: nat)
    requires i < |calls|
  {
    Outgoing(After(p, tid, calls[..i]), tid, calls[i].rpDHPks, calls[i].refreshToken).Ok? && calls[i].answer.Ok?
  }

  ghost function Successes(p: Position, tid: string, calls: seq<Call>): set<nat> {
    set i | 0 <= i < |calls| && Succeeds(p, tid, calls, i)
  }

  lemma SuccessesOfOneMore(p: Position, tid: string, calls: seq<Call>)
    requires calls != []
    ensures var n := |calls| - 1;
            && n !in Successes(p, tid, calls[..n])
            && Successes(p, tid, calls)
               == Successes(p, tid, calls[..n]) + (if Succeeds(p, tid, calls, n) then {n} else {})
  {
    var n := |calls| - 1;
    forall i | 0 <= i < n
      ensures Succeeds(p, tid, calls[..n], i) == Succeeds(p, tid, calls, i)
    {
      assert calls[..n][..i] == calls[..i];
    }
  }

  /** One refresh moves the position by one if it is relayed and answered, and not at all otherwise. */
  lemma OneRefresh(q: BrokerState, tid: string, c: Call)
    requires tid != "" && q.rpDHPks != [] && q.seqNo <= |q.rpDHPks| < 0x1_0000_0000
    ensures var relayed := Outgoing(Some(q), tid, c.rpDHPks, c.refreshToken).Ok? && c.answer.Ok?;
            var next := Refreshed(Some(q), tid, c.rpDHPks, c.refreshToken, c.answer);
            && next.Some? && next.value.rpDHPks == q.rpDHPks
            && next.value.seqNo == (if relayed then q.seqNo + 1 else q.seqNo) <= |q.rpDHPks|
  {}

  /**
   From a registration with N prekeys on, the position counts the refreshes that succeeded; it never
   passes N and the prekey list stays the registered one.
   */
  lemma {:induction false} PositionCountsSuccesses(tid: string, prekeys: seq<Header>, calls: seq<Call>)
    requires tid != "" && 0 < |prekeys| < 0x1_0000_0000
    ensures var p := Registered(None, tid, prekeys);
            var q := After(p, tid, calls);
            && q.Some? && q.value.rpDHPks == prekeys
            && q.value.seqNo == |Successes(p, tid, calls)| <= |prekeys|
  {
    var p := Registered(None, tid, prekeys);
    if calls == [] {
      assert Successes(p, tid, calls) == {};
    } else {
      var n := |calls| - 1;
      PositionCountsSuccesses(tid, prekeys, calls[..n]);
      OneRefresh(After(p, tid, calls[..n]).value, tid, calls[n]);
      SuccessesOfOneMore(p, tid, calls);
      assert Succeeds(p, tid, calls, n) <==> n in Successes(p, tid, calls);
      AddOne(Successes(p, tid, calls[..n]), n);
    }
  }

  lemma AddOne(s: set<nat>, n: nat)
    requires n !in s
    ensures |s + {n}| == |s| + 1 && s + {} == s
  {}

  /** After N successes every call is refused without contacting the IdP; before that, none is. */
  lemma RefusedIffExhausted(tid: string, prekeys: seq<Header>, calls: seq<Call>, refreshToken: string, pks: seq<Header>)
    requires tid != "" && 0 < |prekeys| < 0x1_0000_0000 && refreshToken != ""
    ensures var p := Registered(None, tid, prekeys);
            var done := |Successes(p, tid, calls)|;
            var out := Outgoing(After(p, tid, calls), tid, pks, refreshToken);
            if done == |prekeys| then out == Err(PrekeysExhausted)
            else done < |prekeys| && out == Ok(Request(prekeys[done], done, refreshToken))
  {
    PositionCountsSuccesses(tid, prekeys, calls);
  }
}

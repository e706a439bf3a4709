/**
 RP, broker and IdP together: the broker chooses the header of every request from its position, and
 the RP may register anew at any time.
 */
module RefreshSystem {
  import opened Wrappers
  import opened RatchetKeys
  import opened RatchetRuns
  import IdP = IdPRefresh
  import RP = RPRefresh
  import Broker = BrokerRefresh

  const TID := "tid"

  datatype World = World(broker: Broker.Position, idp: IdP.State, rp: RP.State)

  /**
   A registration with the broker, or a refresh attempt: what the IdP would draw and mint, and how far
   its reply travels.
   */
  datatype Action =
    | Register
    | Refresh(freshSk: nat, minted: IdP.Minted, reachesBroker: bool, reachesRP: bool)

  datatype Outcome = Registered | Refused(Broker.Error) | Lost | Answered(Result<string, RP.Error>)

  ghost predicate ValidSetup(s: Setup) {
    s.sessionKS.Seed? && 0 < |s.rsk| < 0x1_0000_0000
  }

  function Start(s: Setup): World {
    World(None, IdP.Fresh(s.isk), RP.FRESH)
  }

  function Step(s: Setup, w: World, a: Action): (World, Outcome) {
    var pks := RP.Published(s.rsk);
    match a
    case Register => (w.(broker := Broker.Registered(w.broker, TID, pks)), Registered)
    case Refresh(freshSk, minted, reachesBroker, reachesRP) =>
      match Broker.Outgoing(w.broker, TID, pks, REFRESH_TOKEN)
      case Err(e) => (w.(broker := Broker.Ensured(w.broker, pks)), Refused(e))
      case Ok(req) =>
        var (idp, served) := IdP.Handle(w.idp, true, Some(req), s.sessionKS, freshSk, minted);
        var answer := if served.Ok? && reachesBroker then Ok(served.value) else Err(Broker.IdPFailed);
        var broker := Broker.Refreshed(w.broker, TID, pks, REFRESH_TOKEN, answer);
        if answer.Ok? && reachesRP then
          var (rp, token) := RP.Decrypt(w.rp, s.rsk, Some(answer.value), s.sessionKS);
          (World(broker, idp, rp), Answered(token))
        else (World(broker, idp, w.rp), Lost)
  }

  function After(s: Setup, actions: seq<Action>): World {
    if actions == [] then Start(s)
    else Step(s, After(s, actions[..|actions| - 1]), actions[|actions| - 1]).0
  }

  function OutcomeOf(s: Setup, actions: seq<Action>, i: nat): Outcome
    requires i < |actions|
  {
    Step(s, After(s, actions[..i]), actions[i]).1
  }

  /** The position the broker asks for next. */
  function Position(s: Setup, w: World): nat {
    if w.broker.None? then 0 else w.broker.value.seqNo
  }

  /** The requests that reach the IdP in a run, as events of the ratchet. */
  function Events(s: Setup, actions: seq<Action>): seq<Event> {
    if actions == [] then []
    else
      var before, a := actions[..|actions| - 1], actions[|actions| - 1];
      var w := After(s, before);
      if a.Refresh? && Position(s, w) < |s.rsk| && Position(s, w) < 0x1_0000_0000 then
        Events(s, before) + [EventOf(Position(s, w), a)]
      else Events(s, before)
  }

  ghost predicate DistinctDraws(actions: seq<Action>) {
    forall i, j | 0 <= i < j < |actions| && actions[i].Refresh? && actions[j].Refresh? ::
      actions[i].freshSk != actions[j].freshSk
  }

  ghost predicate BrokerOnTrack(s: Setup, p: Broker.Position) {
    p.Some? ==> p.value.rpDHPks == RP.Published(s.rsk) && p.value.seqNo <= |s.rsk|
  }

  /** What the broker sends is always the prekey at its position, and nothing once they are used up. */
  lemma BrokerSends(s: Setup, p: Broker.Position)
    requires ValidSetup(s) && BrokerOnTrack(s, p)
    ensures var n: nat := if p.None? then 0 else p.value.seqNo;
            Broker.Outgoing(p, TID, RP.Published(s.rsk), REFRESH_TOKEN)
            == if n < |s.rsk| then Ok(Request(Point(Pub(s.rsk[n])), n, REFRESH_TOKEN)) else Err(Broker.PrekeysExhausted)
    ensures BrokerOnTrack(s, Broker.Ensured(p, RP.Published(s.rsk)))
  {}

  /** The event a refresh causes at the IdP. */
  function EventOf(n: Uint32, a: Action): Event
    requires a.Refresh?
  {
    Event(n, a.freshSk, a.minted, a.reachesBroker && a.reachesRP)
  }

  ghost predicate OnTrack(s: Setup, run: seq<Event>, w: World) {
    && Fits(s, run) && BrokerOnTrack(s, w.broker)
    && w.idp == IdPAfter(s, run) && w.rp == RPAfter(s, run)
  }

  /** A refresh that is relayed extends the ratchet's run by one event, and is handled as that event is. */
  lemma RelayedStep(s: Setup, run: seq<Event>, w: World, a: Action)
    requires ValidSetup(s) && OnTrack(s, run, w)
    requires a.Refresh? && Position(s, w) < |s.rsk|
    ensures var e := EventOf(Position(s, w), a);
            var (w', outcome) := Step(s, w, a);
            && OnTrack(s, run + [e], w')
            && outcome == (if Received(e) then Answered(Recovered(s, run + [e], |run|)) else Lost)
    ensures Position(s, Step(s, w, a).0)
         == Position(s, w) + if a.minted.Ok? && a.reachesBroker then 1 else 0
  {
    var e := EventOf(Position(s, w), a);
    RelayedAs(s, w, a, e);
    assert (run + [e])[..|run|] == run;
  }

  /** What the three parties do with a relayed refresh, in terms of its event. */
  lemma RelayedAs(s: Setup, w: World, a: Action, e: Event)
    requires ValidSetup(s) && BrokerOnTrack(s, w.broker)
    requires a.Refresh? && Position(s, w) < |s.rsk| && e == EventOf(Position(s, w), a)
    ensures var (w', outcome) := Step(s, w, a);
            && w'.idp == Serve(s, w.idp, e).0 && w'.rp == Consume(s, w.idp, w.rp, e)
            && outcome == (if Received(e) then
                             Answered(RP.Decrypt(w.rp, s.rsk, Some(Serve(s, w.idp, e).1.value), s.sessionKS).1)
                           else Lost)
            && BrokerOnTrack(s, w'.broker)
            && Position(s, w') == Position(s, w) + if a.minted.Ok? && a.reachesBroker then 1 else 0
  {
    BrokerSends(s, w.broker);
  }

  /** A refused refresh, or a registration, leaves the ratchet alone. */
  lemma IdleStep(s: Setup, run: seq<Event>, w: World, a: Action)
    requires ValidSetup(s) && OnTrack(s, run, w)
    requires a.Refresh? ==> Position(s, w) >= |s.rsk|
    ensures var (w', outcome) := Step(s, w, a);
            && OnTrack(s, run, w')
            && (a.Refresh? ==> outcome == Refused(Broker.PrekeysExhausted))
            && Position(s, w') == if a.Refresh? then Position(s, w) else 0
  {
    BrokerSends(s, w.broker);
  }

  lemma OneStep(s: Setup, run: seq<Event>, w: World, a: Action)
    requires ValidSetup(s) && OnTrack(s, run, w)
    ensures OnTrack(s, if a.Refresh? && Position(s, w) < |s.rsk| then run + [EventOf(Position(s, w), a)] else run,
                    Step(s, w, a).0)
  {
    if a.Refresh? && Position(s, w) < |s.rsk| {
      RelayedStep(s, run, w, a);
    } else {
      IdleStep(s, run, w, a);
    }
  }

  /** Every run of the three parties is a run of the ratchet over the requests that reached the IdP. */
  lemma {:induction false} RunsAreRatchetRuns(s: Setup, actions: seq<Action>)
    requires ValidSetup(s)
    ensures OnTrack(s, Events(s, actions), After(s, actions))
  {
    if actions != [] {
      var before := actions[..|actions| - 1];
      RunsAreRatchetRuns(s, before);
      OneStep(s, Events(s, before), After(s, before), actions[|actions| - 1]);
    }
  }

  ghost predicate DrawnBy(actions: seq<Action>, freshSk: nat) {
    exists i :: 0 <= i < |actions| && actions[i].Refresh? && actions[i].freshSk == freshSk
  }

  lemma {:induction false} EventsDrawFresh(s: Setup, actions: seq<Action>)
    requires DistinctDraws(actions)
    ensures FreshDraws(Events(s, actions))
    ensures forall k | 0 <= k < |Events(s, actions)| :: DrawnBy(actions, Events(s, actions)[k].freshSk)
  {
    if actions != [] {
      var n := |actions| - 1;
      var before := actions[..n];
      EventsDrawFresh(s, before);
      forall k | 0 <= k < |Events(s, before)|
        ensures DrawnBy(actions, Events(s, before)[k].freshSk)
        ensures actions[n].Refresh? ==> Events(s, before)[k].freshSk != actions[n].freshSk
      {
        var i :| 0 <= i < |before| && before[i].Refresh? && before[i].freshSk == Events(s, before)[k].freshSk;
        assert actions[i].Refresh? && actions[i].freshSk == Events(s, before)[k].freshSk;
      }
    }
  }

  lemma RelayedTokenArrives(s: Setup, actions: seq<Action>, i: nat)
    requires ValidSetup(s) && DistinctDraws(actions) && i < |actions| && actions[i].Refresh?
    requires forall j | 0 <= j <= i && actions[j].Refresh? ::
               && actions[j].minted.Ok? && actions[j].minted.value != ""
               && actions[j].reachesBroker && actions[j].reachesRP
    requires Position(s, After(s, actions[..i])) < |s.rsk|
    ensures OutcomeOf(s, actions, i) == Answered(Ok(actions[i].minted.value))
  {
    var before, upto := actions[..i], actions[..i + 1];
    var run, w := Events(s, before), After(s, before);
    assert upto[..i] == before;
    RunsAreRatchetRuns(s, before);
    RelayedStep(s, run, w, actions[i]);
    EventsDrawFresh(s, upto);
    AllEventsReceived(s, upto);
    EventsExtend(s, actions, i);
    Lockstep(s, Events(s, upto), |run|);
  }

  lemma EventsExtend(s: Setup, actions: seq<Action>, i: nat)
    requires ValidSetup(s) && i < |actions| && actions[i].Refresh? && Position(s, After(s, actions[..i])) < |s.rsk|
    ensures Events(s, actions[..i + 1])
         == Events(s, actions[..i]) + [EventOf(Position(s, After(s, actions[..i])), actions[i])]
  {
    assert actions[..i + 1][..i] == actions[..i];
  }

  /**
   The whole system against its purpose: as long as nothing is lost, every refresh hands the RP exactly
   the access token the IdP minted for it, until the broker has used up the prekeys registered last;
   from then on it refuses until the RP registers again.
   */
  lemma EveryTokenArrives(s: Setup, actions: seq<Action>, i: nat)
    requires ValidSetup(s) && DistinctDraws(actions) && i < |actions| && actions[i].Refresh?
    requires forall j | 0 <= j <= i && actions[j].Refresh? ::
               && actions[j].minted.Ok? && actions[j].minted.value != ""
               && actions[j].reachesBroker && actions[j].reachesRP
    ensures OutcomeOf(s, actions, i)
         == if SinceRegistration(s, actions, i) < |s.rsk| then Answered(Ok(actions[i].minted.value))
            else Refused(Broker.PrekeysExhausted)
  {
    var before := actions[..i];
    var run, w := Events(s, before), After(s, before);
    RunsAreRatchetRuns(s, before);
    PositionSinceRegistration(s, actions, i);
    if Position(s, w) < |s.rsk| {
      RelayedTokenArrives(s, actions, i);
    } else {
      IdleStep(s, run, w, actions[i]);
    }
  }

  /** Refreshes among the first `n` actions that came after the last registration and were not refused. */
  function SinceRegistration(s: Setup, actions: seq<Action>, n: nat): nat
    requires n <= |actions|
  {
    if n == 0 || actions[n - 1].Register? then 0
    else
      var before := SinceRegistration(s, actions, n - 1);
      if before < |s.rsk| then before + 1 else before
  }

  lemma {:induction false} PositionSinceRegistration(s: Setup, actions: seq<Action>, n: nat)
    requires ValidSetup(s) && n <= |actions|
    requires forall j | 0 <= j < n && actions[j].Refresh? :: actions[j].minted.Ok? && actions[j].reachesBroker
    ensures Position(s, After(s, actions[..n])) == SinceRegistration(s, actions, n)
  {
    if n > 0 {
      var before := actions[..n - 1];
      assert actions[..n][..n - 1] == before;
      PositionSinceRegistration(s, actions, n - 1);
      RunsAreRatchetRuns(s, before);
      if actions[n - 1].Refresh? && Position(s, After(s, before)) < |s.rsk| {
        RelayedStep(s, Events(s, before), After(s, before), actions[n - 1]);
      } else {
        IdleStep(s, Events(s, before), After(s, before), actions[n - 1]);
      }
    }
  }

  lemma {:induction false} AllEventsReceived(s: Setup, actions: seq<Action>)
    requires forall j | 0 <= j < |actions| && actions[j].Refresh? ::
               && actions[j].minted.Ok? && actions[j].minted.value != ""
               && actions[j].reachesBroker && actions[j].reachesRP
    ensures forall k | 0 <= k < |Events(s, actions)| ::
              Received(Events(s, actions)[k]) && Events(s, actions)[k].minted.value != ""
  {
    if actions != [] {
      AllEventsReceived(s, actions[..|actions| - 1]);
    }
  }
}

/**
 Whole runs of the token-refresh ratchet: when RP and IdP agree, exactly when a lossy network
 makes them disagree, and whether they get over it.
 */
module RatchetRuns {
  import opened Wrappers
  import opened RatchetKeys
  import IdP = IdPRefresh
  import RP = RPRefresh

  /** What one RP and the IdP start a run with: the RP's key pool and the session key both seed from. */
  datatype Setup = Setup(rsk: seq<nat>, sessionKS: Key, isk: nat)

  /**
   One request the broker puts to the IdP: for prekey number `seqNo`, with the scalar the IdP would
   draw and the outcome of minting. `delivered` says whether a reply, if there is one, reaches the RP.
   */
  datatype Event = Event(seqNo: Uint32, freshSk: nat, minted: IdP.Minted, delivered: bool)

  const REFRESH_TOKEN := "refresh_token"

  ghost predicate Fits(s: Setup, run: seq<Event>) {
    && s.sessionKS.Seed?
    && (forall i | 0 <= i < |run| :: run[i].seqNo < |s.rsk|)
  }

  /** The key generator never draws the same scalar twice in a run. */
  ghost predicate FreshDraws(run: seq<Event>) {
    forall i, j | 0 <= i < j < |run| :: run[i].freshSk != run[j].freshSk
  }

  function HeaderOf(s: Setup, e: Event): Pub
    requires e.seqNo < |s.rsk|
  {
    Pub(s.rsk[e.seqNo])
  }

  /** The IdP's handling of one event. */
  function Serve(s: Setup, idp: IdP.State, e: Event): (IdP.State, Result<Reply, IdP.Error>)
    requires e.seqNo < |s.rsk|
  {
    var req := Request(Point(HeaderOf(s, e)), e.seqNo, REFRESH_TOKEN);
    IdP.Handle(idp, true, Some(req), s.sessionKS, e.freshSk, e.minted)
  }

  /** The RP's handling of one event: nothing, unless a reply exists and is delivered. */
  function Consume(s: Setup, idp: IdP.State, rp: RP.State, e: Event): RP.State
    requires e.seqNo < |s.rsk|
  {
    var reply := Serve(s, idp, e).1;
    if reply.Ok? && e.delivered then RP.Decrypt(rp, s.rsk, Some(reply.value), s.sessionKS).0 else rp
  }

  function IdPAfter(s: Setup, run: seq<Event>): IdP.State
    requires Fits(s, run)
  {
    if run == [] then IdP.Fresh(s.isk)
    else Serve(s, IdPAfter(s, run[..|run| - 1]), run[|run| - 1]).0
  }

  function RPAfter(s: Setup, run: seq<Event>): RP.State
    requires Fits(s, run)
  {
    if run == [] then RP.FRESH
    else
      var before := run[..|run| - 1];
      Consume(s, IdPAfter(s, before), RPAfter(s, before), run[|run| - 1])
  }

  /** Whether the RP receives the reply to event `e`. */
  predicate Received(e: Event) {
    e.minted.Ok? && e.delivered
  }

  /** What the RP makes of the reply to event `i`. */
  function Recovered(s: Setup, run: seq<Event>, i: nat): Result<string, RP.Error>
    requires Fits(s, run) && i < |run| && Received(run[i])
  {
    var reply := Serve(s, IdPAfter(s, run[..i]), run[i]).1;
    RP.Decrypt(RPAfter(s, run[..i]), s.rsk, Some(reply.value), s.sessionKS).1
  }

  // ---------------------------------------------------------------- epochs

  /** Event `i` opens an epoch when its header differs from the one before it. */
  predicate Opens(s: Setup, run: seq<Event>, i: nat)
    requires Fits(s, run) && i < |run|
  {
    i == 0 || HeaderOf(s, run[i]) != HeaderOf(s, run[i - 1])
  }

  /** The number of epochs opened by the first `n` events. */
  function Epochs(s: Setup, run: seq<Event>, n: nat): nat
    requires Fits(s, run) && n <= |run|
  {
    if n == 0 then 0 else Epochs(s, run, n - 1) + if Opens(s, run, n - 1) then 1 else 0
  }

  /** The epoch event `i` belongs to, counted from 1. */
  function EpochOf(s: Setup, run: seq<Event>, i: nat): nat
    requires Fits(s, run) && i < |run|
  {
    Epochs(s, run, i + 1)
  }

  /** Up to and including event `i`, the RP received some reply of every epoch so far. */
  ghost predicate EveryEpochHeard(s: Setup, run: seq<Event>, i: nat)
    requires Fits(s, run) && i < |run|
  {
    forall e | 1 <= e <= EpochOf(s, run, i) :: EpochHeard(s, run, i, e)
  }

  ghost predicate EpochHeard(s: Setup, run: seq<Event>, i: nat, e: nat)
    requires Fits(s, run) && i < |run|
  {
    exists j :: 0 <= j <= i && EpochOf(s, run, j) == e && Received(run[j])
  }

  /** Every event of the epoch of `i` before `i` was received. */
  ghost predicate NoneLostInEpoch(s: Setup, run: seq<Event>, i: nat)
    requires Fits(s, run) && i < |run|
  {
    forall j | 0 <= j < i && EpochOf(s, run, j) == EpochOf(s, run, i) :: Received(run[j])
  }

  // ---------------------------------------------------------------- counting along a run

  /**
   How far a run has come: epochs opened, symmetric steps the IdP has taken in the last of them,
   replies of that one the RP has received, and epochs the RP has received some reply of.
   */
  datatype Counts = Counts(epochs: nat, steps: nat, got: nat, heard: nat)

  function Count(c: Counts, opens: bool, received: bool): Counts {
    var got := if opens then 0 else c.got;
    Counts(
      c.epochs + if opens then 1 else 0,
      (if opens then 0 else c.steps) + 1,
      got + if received then 1 else 0,
      c.heard + if received && got == 0 then 1 else 0)
  }

  function CountsAfter(s: Setup, run: seq<Event>, n: nat): Counts
    requires Fits(s, run) && n <= |run|
  {
    if n == 0 then Counts(0, 0, 0, 0)
    else Count(CountsAfter(s, run, n - 1), Opens(s, run, n - 1), Received(run[n - 1]))
  }

  /** The counts of a prefix are those of the run. */
  lemma {:induction false} CountsOfPrefix(s: Setup, run: seq<Event>, m: nat, n: nat)
    requires Fits(s, run) && n <= m <= |run|
    ensures CountsAfter(s, run[..m], n) == CountsAfter(s, run, n)
  {
    if n > 0 {
      CountsOfPrefix(s, run, m, n - 1);
    }
  }

  lemma {:induction false} CountsAreOrdered(s: Setup, run: seq<Event>, n: nat)
    requires Fits(s, run) && n <= |run|
    ensures var c := CountsAfter(s, run, n);
            && c.epochs == Epochs(s, run, n) && c.got <= c.steps
            && (if n == 0 then c.epochs == c.steps == c.heard == 0
                else c.steps > 0 && c.epochs > 0 && c.heard + (if c.got == 0 then 1 else 0) <= c.epochs)
  {
    if n > 0 {
      CountsAreOrdered(s, run, n - 1);
    }
  }

  lemma {:induction false} EpochsGrow(s: Setup, run: seq<Event>, m: nat, n: nat)
    requires Fits(s, run) && m <= n <= |run|
    ensures Epochs(s, run, m) <= Epochs(s, run, n)
  {
    if m < n {
      EpochsGrow(s, run, m, n - 1);
    }
  }

  /** Nothing of the current epoch was lost iff the RP received as many replies of it as the IdP took steps. */
  lemma {:induction false} NoneLostCounted(s: Setup, run: seq<Event>, n: nat)
    requires Fits(s, run) && 0 < n <= |run|
    ensures var c := CountsAfter(s, run, n);
            c.got == c.steps <==> forall j | 0 <= j < n && EpochOf(s, run, j) == Epochs(s, run, n) :: Received(run[j])
  {
    var m := n - 1;
    CountsAreOrdered(s, run, m);
    if Opens(s, run, m) {
      forall j | 0 <= j < m
        ensures EpochOf(s, run, j) < Epochs(s, run, n)
      {
        EpochsGrow(s, run, j + 1, m);
      }
    } else {
      NoneLostCounted(s, run, m);
    }
    assert EpochOf(s, run, m) == Epochs(s, run, n);
  }

  /** An epoch is heard by event `n` iff it was heard before, or event `n` itself is received and belongs to it. */
  lemma HeardSoFar(s: Setup, run: seq<Event>, n: nat, e: nat)
    requires Fits(s, run) && 0 < n < |run|
    ensures EpochHeard(s, run, n, e)
       <==> EpochHeard(s, run, n - 1, e) || (EpochOf(s, run, n) == e && Received(run[n]))
  {
    if EpochHeard(s, run, n - 1, e) {
      var j :| 0 <= j <= n - 1 && EpochOf(s, run, j) == e && Received(run[j]);
      assert 0 <= j <= n && EpochOf(s, run, j) == e && Received(run[j]);
    }
  }

  lemma NothingHeardAhead(s: Setup, run: seq<Event>, i: nat, e: nat)
    requires Fits(s, run) && i < |run| && e > EpochOf(s, run, i)
    ensures !EpochHeard(s, run, i, e)
  {
    if EpochHeard(s, run, i, e) {
      var j :| 0 <= j <= i && EpochOf(s, run, j) == e && Received(run[j]);
      EpochsGrow(s, run, j + 1, i + 1);
    }
  }

  /** Some reply of the current epoch was received iff the count of them is positive. */
  lemma {:induction false} CurrentHeardCounted(s: Setup, run: seq<Event>, n: nat)
    requires Fits(s, run) && 0 < n <= |run|
    ensures CountsAfter(s, run, n).got > 0 <==> EpochHeard(s, run, n - 1, Epochs(s, run, n))
  {
    var now, m := Epochs(s, run, n), n - 1;
    assert EpochOf(s, run, m) == now;
    if m == 0 {
      HeardAtFirst(s, run, now);
    } else {
      HeardSoFar(s, run, m, now);
      if Opens(s, run, m) {
        NothingHeardAhead(s, run, m - 1, now);
      } else {
        CurrentHeardCounted(s, run, m);
      }
    }
  }

  lemma HeardAtFirst(s: Setup, run: seq<Event>, e: nat)
    requires Fits(s, run) && run != [] && e == EpochOf(s, run, 0)
    ensures EpochHeard(s, run, 0, e) <==> Received(run[0])
  {
    if Received(run[0]) {
      assert 0 <= 0 <= 0 && EpochOf(s, run, 0) == e && Received(run[0]);
    }
  }

  /** Every epoch below `bound` was heard by event `i`. */
  ghost predicate HeardBelow(s: Setup, run: seq<Event>, i: nat, bound: nat)
    requires Fits(s, run) && i < |run|
  {
    forall e | 1 <= e < bound :: EpochHeard(s, run, i, e)
  }

  /** Events of a later epoch do not change which earlier epochs were heard. */
  lemma HeardBelowStays(s: Setup, run: seq<Event>, n: nat)
    requires Fits(s, run) && 0 < n < |run|
    ensures HeardBelow(s, run, n, EpochOf(s, run, n)) <==> HeardBelow(s, run, n - 1, EpochOf(s, run, n))
  {
    var m, bound := n - 1, EpochOf(s, run, n);
    if HeardBelow(s, run, n, bound) {
      forall e | 1 <= e < bound
        ensures EpochHeard(s, run, m, e)
      {
        assert EpochHeard(s, run, n, e);
        HeardSoFar(s, run, n, e);
      }
    }
    if HeardBelow(s, run, m, bound) {
      forall e | 1 <= e < bound
        ensures EpochHeard(s, run, n, e)
      {
        assert EpochHeard(s, run, m, e);
        HeardSoFar(s, run, n, e);
      }
    }
  }

  /** Every earlier epoch was heard iff as many earlier epochs were heard as were opened. */
  lemma {:induction false} PastHeardCounted(s: Setup, run: seq<Event>, n: nat)
    requires Fits(s, run) && 0 < n <= |run|
    ensures var c := CountsAfter(s, run, n);
            c.heard + (if c.got == 0 then 1 else 0) == c.epochs <==> HeardBelow(s, run, n - 1, c.epochs)
  {
    CountsAreOrdered(s, run, n);
    if n > 1 {
      var m := n - 1;
      CountsAreOrdered(s, run, m);
      PastHeardCounted(s, run, m);
      HeardBelowStays(s, run, m);
      if Opens(s, run, m) {
        CurrentHeardCounted(s, run, m);
        HeardBelowOneMore(s, run, m - 1, Epochs(s, run, m));
      }
    }
  }

  lemma HeardBelowOneMore(s: Setup, run: seq<Event>, i: nat, bound: nat)
    requires Fits(s, run) && i < |run| && bound > 0
    ensures HeardBelow(s, run, i, bound + 1) <==> HeardBelow(s, run, i, bound) && EpochHeard(s, run, i, bound)
  {}

  /** Every epoch was heard iff as many epochs were heard as were opened. */
  lemma AllHeardCounted(s: Setup, run: seq<Event>, n: nat)
    requires Fits(s, run) && 0 < n <= |run|
    ensures var c := CountsAfter(s, run, n);
            c.heard == c.epochs <==> EveryEpochHeard(s, run, n - 1)
  {
    CountsAreOrdered(s, run, n);
    PastHeardCounted(s, run, n);
    CurrentHeardCounted(s, run, n);
  }

  // ---------------------------------------------------------------- the two key schedules side by side

  /**
   Where both schedules stand. The IdP is `steps` symmetric steps into its last epoch. The RP's root
   key has been through one DH step per epoch heard; it agrees with the IdP's, or is one DH step
   behind, as long as no epoch was missed.
   */
  ghost predicate Tracks(c: Counts, sessionKS: Key, idp: IdP.State, rp: RP.State) {
    && sessionKS.Seed? && IdPTracks(c, idp)
    && var rk := RP.Seeded(rp, sessionKS).rk;
       && Depth(rk) == c.heard
       && (if c.got > 0 then
             && rp.seeded && rk.Root? && rp.dhB == Some(Pub(idp.isk))
             && rp.ck == Advance(ChainBeside(rk), c.got)
             && (c.heard == c.epochs ==> rk == idp.rk)
           else
             && rp.dhB != Some(Pub(idp.isk))
             && (c.epochs == 0 ==> !rp.seeded)
             && (c.epochs > 0 && c.heard + 1 == c.epochs ==> idp.rk == Root(rk, DH(idp.isk, idp.dhA.value))))
  }

  ghost predicate IdPTracks(c: Counts, idp: IdP.State) {
    if c.epochs == 0 then c == Counts(0, 0, 0, 0) && !idp.seeded && idp.dhA.None?
    else
      && c.got <= c.steps && c.heard + (if c.got == 0 then 1 else 0) <= c.epochs
      && idp.seeded && idp.dhA.Some?
      && idp.rk.Root? && Depth(idp.rk) == c.epochs
      && idp.ck == Advance(ChainBeside(idp.rk), c.steps)
  }

  /** One served event keeps the IdP on track. */
  lemma ServeTracks(s: Setup, c: Counts, idp: IdP.State, e: Event, received: bool)
    requires e.seqNo < |s.rsk| && s.sessionKS.Seed? && IdPTracks(c, idp)
    ensures var opens := idp.dhA != Some(HeaderOf(s, e));
            IdPTracks(Count(c, opens, received), Serve(s, idp, e).0)
  {
    var idp' := Serve(s, idp, e).0;
    if idp.dhA != Some(HeaderOf(s, e)) {
      assert Advance(ChainBeside(idp'.rk), 0) == ChainBeside(idp'.rk);
    }
  }

  /** One event, received or not, keeps both schedules on track, provided a new epoch brings the RP a new header. */
  lemma EventTracks(s: Setup, c: Counts, idp: IdP.State, rp: RP.State, e: Event)
    requires e.seqNo < |s.rsk| && Tracks(c, s.sessionKS, idp, rp)
    requires idp.dhA != Some(HeaderOf(s, e)) ==> rp.dhB != Some(Pub(e.freshSk))
    ensures var opens := idp.dhA != Some(HeaderOf(s, e));
            Tracks(Count(c, opens, Received(e)), s.sessionKS, Serve(s, idp, e).0, Consume(s, idp, rp, e))
  {
    ServeTracks(s, c, idp, e, Received(e));
    var idp' := Serve(s, idp, e).0;
    var rp' := Consume(s, idp, rp, e);
    var c' := Count(c, idp.dhA != Some(HeaderOf(s, e)), Received(e));
    if Received(e) {
      DHCommutes(idp'.isk, s.rsk[e.seqNo]);
      assert rp'.seeded && rp'.dhB == Some(Pub(idp'.isk));
      if c'.got == 1 {
        assert rp'.rk == Root(RP.Seeded(rp, s.sessionKS).rk, DH(idp'.isk, HeaderOf(s, e)));
        assert Advance(ChainBeside(rp'.rk), 0) == ChainBeside(rp'.rk);
      }
    }
  }

  /** A header is one the IdP drew for one of the first `n` events. */
  ghost predicate Drawn(run: seq<Event>, n: nat, pk: Pub)
    requires n <= |run|
  {
    exists j :: 0 <= j < n && run[j].freshSk == pk.sk
  }

  lemma PrefixStep(s: Setup, run: seq<Event>, n: nat)
    requires Fits(s, run) && 0 < n <= |run|
    ensures var idp := IdPAfter(s, run[..n - 1]);
            && IdPAfter(s, run[..n]) == Serve(s, idp, run[n - 1]).0
            && RPAfter(s, run[..n]) == Consume(s, idp, RPAfter(s, run[..n - 1]), run[n - 1])
  {
    assert run[..n][..n - 1] == run[..n - 1];
  }

  /** The IdP remembers the last header it was sent, and answers under a key pair it drew in this run. */
  lemma {:induction false} IdPHeaders(s: Setup, run: seq<Event>, n: nat)
    requires Fits(s, run) && n <= |run|
    ensures var idp := IdPAfter(s, run[..n]);
            if n == 0 then idp.dhA == None
            else idp.dhA == Some(HeaderOf(s, run[n - 1])) && Drawn(run, n, Pub(idp.isk))
  {
    if n > 0 {
      var m := n - 1;
      IdPHeaders(s, run, m);
      PrefixStep(s, run, n);
      ServeHeaders(s, IdPAfter(s, run[..m]), run[m]);
      DrawnExtends(run, m, Pub(IdPAfter(s, run[..n]).isk));
    }
  }

  lemma ServeHeaders(s: Setup, idp: IdP.State, e: Event)
    requires e.seqNo < |s.rsk| && s.sessionKS.Seed?
    ensures var pk := Some(HeaderOf(s, e));
            && Serve(s, idp, e).0.dhA == pk
            && Serve(s, idp, e).0.isk == if idp.dhA == pk then idp.isk else e.freshSk
  {}

  lemma DrawnExtends(run: seq<Event>, m: nat, pk: Pub)
    requires m < |run| && (run[m].freshSk == pk.sk || Drawn(run, m, pk))
    ensures Drawn(run, m + 1, pk)
  {}

  lemma {:induction false} RPHeaders(s: Setup, run: seq<Event>, n: nat)
    requires Fits(s, run) && n <= |run|
    ensures var rp := RPAfter(s, run[..n]);
            rp.dhB.Some? ==> Drawn(run, n, rp.dhB.value)
  {
    if n > 0 {
      var m := n - 1;
      RPHeaders(s, run, m);
      IdPHeaders(s, run, n);
      PrefixStep(s, run, n);
      var rp := RPAfter(s, run[..m]);
      if rp.dhB.Some? && Drawn(run, m, rp.dhB.value) {
        DrawnExtends(run, m, rp.dhB.value);
      }
    }
  }

  /** Event `m` opens an epoch iff its header is new to the IdP; the key pair drawn for it is new to the RP. */
  lemma HeadersAt(s: Setup, run: seq<Event>, m: nat)
    requires Fits(s, run) && FreshDraws(run) && m < |run|
    ensures Opens(s, run, m) <==> IdPAfter(s, run[..m]).dhA != Some(HeaderOf(s, run[m]))
    ensures RPAfter(s, run[..m]).dhB != Some(Pub(run[m].freshSk))
  {
    IdPHeaders(s, run, m);
    RPHeaders(s, run, m);
  }

  /** After any run, both schedules are where the counts say. */
  lemma {:induction false} RunTracks(s: Setup, run: seq<Event>, n: nat)
    requires Fits(s, run) && FreshDraws(run) && n <= |run|
    ensures Tracks(CountsAfter(s, run, n), s.sessionKS, IdPAfter(s, run[..n]), RPAfter(s, run[..n]))
  {
    if n > 0 {
      var m := n - 1;
      RunTracks(s, run, m);
      HeadersAt(s, run, m);
      PrefixStep(s, run, n);
      EventTracks(s, CountsAfter(s, run, m), IdPAfter(s, run[..m]), RPAfter(s, run[..m]), run[m]);
    }
  }

  /** The reply to event `i` opens iff the RP's schedule, moved on for it, reaches the IdP's chain key. */
  lemma ReplyOpens(s: Setup, run: seq<Event>, i: nat)
    requires Fits(s, run) && FreshDraws(run) && i < |run| && Received(run[i])
    ensures var e := run[i];
            var idp, rp := IdPAfter(s, run[..i + 1]), RPAfter(s, run[..i + 1]);
            && (idp.ck == rp.ck && e.minted.value != "" ==> Recovered(s, run, i) == Ok(e.minted.value))
            && (!(idp.ck == rp.ck && e.minted.value != "") ==> Recovered(s, run, i).Err?)
  {
    assert run[..i + 1][..i] == run[..i];
    RunTracks(s, run, i);
  }

  /** What the counts say about agreement, once a reply of the current epoch was received. */
  lemma AgreementFromCounts(c: Counts, sessionKS: Key, idp: IdP.State, rp: RP.State)
    requires Tracks(c, sessionKS, idp, rp) && c.got > 0
    ensures rp.dhB == Some(Pub(idp.isk))
    ensures rp.rk == idp.rk <==> c.heard == c.epochs
    ensures rp.ck == idp.ck <==> c.heard == c.epochs && c.got == c.steps
  {
    AdvanceInjective(idp.rk, c.steps, rp.rk, c.got);
  }

  lemma AgreementAfterReply(s: Setup, run: seq<Event>, i: nat)
    requires Fits(s, run) && FreshDraws(run) && i < |run| && Received(run[i])
    ensures var idp, rp := IdPAfter(s, run[..i + 1]), RPAfter(s, run[..i + 1]);
            && rp.dhB == Some(Pub(idp.isk))
            && (rp.rk == idp.rk <==> EveryEpochHeard(s, run, i))
            && (rp.ck == idp.ck <==> EveryEpochHeard(s, run, i) && NoneLostInEpoch(s, run, i))
  {
    RunTracks(s, run, i + 1);
    AgreementFromCounts(CountsAfter(s, run, i + 1), s.sessionKS, IdPAfter(s, run[..i + 1]), RPAfter(s, run[..i + 1]));
    AllHeardCounted(s, run, i + 1);
    NoneLostCounted(s, run, i + 1);
    assert NoneLostInEpoch(s, run, i)
      <==> forall j | 0 <= j < i + 1 && EpochOf(s, run, j) == Epochs(s, run, i + 1) :: Received(run[j]);
  }

  /**
   The exact loss theorem. Replies are delivered in order but any of them may be lost: because the IdP
   fails after ratcheting, or on the way to the broker, or on the way to the RP. Whenever a reply is
   delivered,
   - the root keys agree afterwards iff the RP received at least one reply of every IdP epoch so far;
   - the RP recovers the minted access token iff, besides, no earlier step of this epoch was lost;
     otherwise it reports an error.
   */
  lemma ExactLoss(s: Setup, run: seq<Event>, i: nat)
    requires Fits(s, run) && FreshDraws(run) && i < |run| && Received(run[i])
    ensures var idp, rp := IdPAfter(s, run[..i + 1]), RPAfter(s, run[..i + 1]);
            && (rp.rk == idp.rk <==> EveryEpochHeard(s, run, i))
            && (EveryEpochHeard(s, run, i) && NoneLostInEpoch(s, run, i) && run[i].minted.value != ""
                <==> Recovered(s, run, i) == Ok(run[i].minted.value))
            && (Recovered(s, run, i).Ok? ==> Recovered(s, run, i) == Ok(run[i].minted.value))
  {
    AgreementAfterReply(s, run, i);
    ReplyOpens(s, run, i);
  }

  /**
   Lockstep: as long as every reply so far was received, root key, chain key and header agree after
   each of them, and the RP recovers exactly the access token the IdP minted.
   */
  lemma Lockstep(s: Setup, run: seq<Event>, i: nat)
    requires Fits(s, run) && FreshDraws(run) && i < |run|
    requires forall j | 0 <= j <= i :: Received(run[j]) && run[j].minted.value != ""
    ensures var idp, rp := IdPAfter(s, run[..i + 1]), RPAfter(s, run[..i + 1]);
            rp.rk == idp.rk && rp.ck == idp.ck && rp.dhB == Some(Pub(idp.isk))
    ensures Recovered(s, run, i) == Ok(run[i].minted.value)
  {
    ExactLoss(s, run, i);
    forall e | 1 <= e <= EpochOf(s, run, i)
      ensures EpochHeard(s, run, i, e)
    {
      EpochsAreHit(s, run, i + 1, e);
    }
    AgreementAfterReply(s, run, i);
  }

  /** Every epoch opened so far contains some event. */
  lemma {:induction false} EpochsAreHit(s: Setup, run: seq<Event>, n: nat, e: nat)
    requires Fits(s, run) && n <= |run| && 1 <= e <= Epochs(s, run, n)
    ensures exists j :: 0 <= j < n && EpochOf(s, run, j) == e
  {
    if e == Epochs(s, run, n) && EpochOf(s, run, n - 1) == e {
    } else {
      EpochsAreHit(s, run, n - 1, e);
    }
  }

  /**
   Healing: a loss inside an epoch is repaired by the next header. When event `i` is delivered and
   opens an epoch, and every earlier epoch was heard of at all, its token is recovered whatever was
   lost inside those epochs.
   */
  lemma NewHeaderHeals(s: Setup, run: seq<Event>, i: nat)
    requires Fits(s, run) && FreshDraws(run) && 0 < i < |run| && Received(run[i]) && run[i].minted.value != ""
    requires Opens(s, run, i) && EveryEpochHeard(s, run, i - 1)
    ensures Recovered(s, run, i) == Ok(run[i].minted.value)
  {
    ExactLoss(s, run, i);
    ReceivedOpenerIsHeard(s, run, i);
    NothingLostBeforeOpener(s, run, i);
  }

  /**
   Permanence: once a reply is delivered while some epoch before it went unheard, root keys never agree
   again after any delivered reply, and no token is recovered from this one or any later one.
   */
  lemma UnheardEpochIsFinal(s: Setup, run: seq<Event>, i: nat, j: nat)
    requires Fits(s, run) && FreshDraws(run) && i <= j < |run| && Received(run[i]) && Received(run[j])
    requires !EveryEpochHeard(s, run, i)
    ensures IdPAfter(s, run[..j + 1]).rk != RPAfter(s, run[..j + 1]).rk
    ensures Recovered(s, run, j).Err?
  {
    UnheardStaysUnheard(s, run, i, j);
    ExactLoss(s, run, j);
  }

  lemma UnheardStaysUnheard(s: Setup, run: seq<Event>, i: nat, j: nat)
    requires Fits(s, run) && i <= j < |run| && Received(run[i]) && !EveryEpochHeard(s, run, i)
    ensures !EveryEpochHeard(s, run, j)
  {
    var e :| 1 <= e <= EpochOf(s, run, i) && !EpochHeard(s, run, i, e);
    assert EpochHeard(s, run, i, EpochOf(s, run, i));
    NoLaterHearing(s, run, i, j, e);
    LaterEpoch(s, run, i, j);
  }

  lemma LaterEpoch(s: Setup, run: seq<Event>, i: nat, j: nat)
    requires Fits(s, run) && i <= j < |run|
    ensures EpochOf(s, run, i) <= EpochOf(s, run, j)
  {
    EpochsGrow(s, run, i + 1, j + 1);
  }

  /** Events of a later epoch do not make an earlier one heard. */
  lemma NoLaterHearing(s: Setup, run: seq<Event>, i: nat, j: nat, e: nat)
    requires Fits(s, run) && i <= j < |run| && e < EpochOf(s, run, i) && !EpochHeard(s, run, i, e)
    ensures !EpochHeard(s, run, j, e)
  {
    forall k: nat | i < k <= j
      ensures e < EpochOf(s, run, k)
    {
      LaterEpoch(s, run, i, k);
    }
  }

  lemma ReceivedOpenerIsHeard(s: Setup, run: seq<Event>, i: nat)
    requires Fits(s, run) && 0 < i < |run| && Received(run[i]) && Opens(s, run, i) && EveryEpochHeard(s, run, i - 1)
    ensures EveryEpochHeard(s, run, i)
  {
    assert EpochOf(s, run, i) == EpochOf(s, run, i - 1) + 1;
    forall e | 1 <= e <= EpochOf(s, run, i)
      ensures EpochHeard(s, run, i, e)
    {
      HeardSoFar(s, run, i, e);
    }
  }

  lemma NothingLostBeforeOpener(s: Setup, run: seq<Event>, i: nat)
    requires Fits(s, run) && 0 < i < |run| && Opens(s, run, i)
    ensures NoneLostInEpoch(s, run, i)
  {
    forall j | 0 <= j < i
      ensures EpochOf(s, run, j) < EpochOf(s, run, i)
    {
      EpochsGrow(s, run, j + 1, i);
    }
  }
}

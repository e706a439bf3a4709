/**
 The RP half of the token-refresh ratchet (RP/refresh.go), and the persisted pool of DH keys it
 draws on (RP/persist.go).
 */
module RPRefresh {
  import opened Wrappers
  import opened RatchetKeys

  datatype Error =
    | NilResponse | SeqOutOfRange | InvalidHdr | DecryptionFailed | InvalidPayload | EmptyAccessToken

  // ---------------------------------------------------------------- decryption

  datatype State = State(seeded: bool, rk: Key, ck: Key, dhB: Option<Pub>)

  const FRESH := State(false, NoKey, NoKey, None)

  function Seeded(s: State, sessionKS: Key): State {
    if s.seeded then s else s.(rk := sessionKS, seeded := true)
  }

  /** The DH step, taken exactly when the IdP's header differs from the last one. */
  function DHStep(s: State, sk: nat, peerPk: Pub): State {
    if s.dhB == Some(peerPk) then s
    else
      var (rk, ck) := KdfRK(s.rk, DH(sk, peerPk));
      State(s.seeded, rk, ck, Some(peerPk))
  }

  function AccessToken(plain: Option<Payload>): Result<string, Error> {
    if plain.None? then Err(DecryptionFailed)
    else if plain.value.NotJson? then Err(InvalidPayload)
    else if plain.value.accessToken == "" then Err(EmptyAccessToken)
    else Ok(plain.value.accessToken)
  }

  /** The state moves on before decryption is attempted, so a reply that does not open still ratchets. */
  function Decrypt(s: State, rsk: seq<nat>, resp: Option<Reply>, sessionKS: Key): (State, Result<string, Error>) {
    if resp.None? then (s, Err(NilResponse))
    else
      var Reply(hdr, seqNo, c) := resp.value;
      var t := Seeded(s, sessionKS);
      if seqNo >= |rsk| then (t, Err(SeqOutOfRange))
      else if !hdr.Point? then (t, Err(InvalidHdr))
      else
        var u := DHStep(t, rsk[seqNo], hdr.pk);
        var (newCK, mk) := KdfCK(u.ck);
        (u.(ck := newCK), AccessToken(Open(mk, c, Aad(Point(Pub(rsk[seqNo])), seqNo))))
  }

  /**
   What is accepted, written out: a token is recovered iff it is not empty and the reply seals it under
   the message key of the chain key just left behind, bound to the RP's own prekey at the reply's
   sequence number. The keys move by the IdP's header alone.
   */
  lemma RecoveredIff(s: State, rsk: seq<nat>, resp: Option<Reply>, sessionKS: Key, token: string)
    ensures var (t, r) := Decrypt(s, rsk, resp, sessionKS);
            r == Ok(token)
            <==> && resp.Some? && resp.value.seqNo < |rsk| && resp.value.hdr.Point? && token != "" && t.ck.Next?
                 && resp.value.c.Sealed? && resp.value.c.key == Message(t.ck.ck)
                 && resp.value.c.payload.Payload? && resp.value.c.payload.accessToken == token
                 && resp.value.c.aad == Aad(Point(Pub(rsk[resp.value.seqNo])), resp.value.seqNo)
    ensures var t := Decrypt(s, rsk, resp, sessionKS).0;
            resp.Some? && resp.value.seqNo < |rsk| && resp.value.hdr.Point? ==>
              var pk, prev := resp.value.hdr.pk, if s.seeded then s.rk else sessionKS;
              && t.seeded && t.dhB == Some(pk)
              && if s.dhB == Some(pk) then t.rk == prev && (s.ck != NoKey ==> t.ck == Next(s.ck))
                 else
                   var dh := DH(rsk[resp.value.seqNo], pk);
                   t.rk == Root(prev, dh) && t.ck == Next(Chain(prev, dh))
  {}

  // ---------------------------------------------------------------- the key pool

  const DEFAULT_POOL := 64

  function PoolSize(precomputeN: int): nat
    ensures PoolSize(precomputeN) > 0
  {
    if precomputeN <= 0 then DEFAULT_POOL else precomputeN
  }

  /** The keys the pool holds after a start: persisted ones first, then freshly drawn ones. */
  function Pool(persisted: seq<nat>, precomputeN: int, draw: nat -> nat): (pool: seq<nat>)
    ensures |pool| == PoolSize(precomputeN)
  {
    var n := PoolSize(precomputeN);
    if n <= |persisted| then persisted[..n]
    else persisted + seq(n - |persisted|, i requires 0 <= i < n - |persisted| => draw(i))
  }

  /** The pool, key by key: its size, the persisted keys in their places, then each newly drawn one. */
  lemma PoolWrittenOut(persisted: seq<nat>, precomputeN: int, draw: nat -> nat)
    ensures |Pool(persisted, precomputeN, draw)| == if precomputeN <= 0 then 64 else precomputeN
    ensures forall i | 0 <= i < |Pool(persisted, precomputeN, draw)| ::
              Pool(persisted, precomputeN, draw)[i] == if i < |persisted| then persisted[i] else draw(i - |persisted|)
  {}

  /** What storage holds after that start; saving can fail, which the RP only logs. */
  function Persisted(persisted: seq<nat>, precomputeN: int, draw: nat -> nat, saveOk: bool): seq<nat> {
    if PoolSize(precomputeN) > |persisted| && saveOk then Pool(persisted, precomputeN, draw) else persisted
  }

  /** The keys a stored list stands for: none at all if some entry does not decode. */
  function Loaded(stored: seq<Option<nat>>): (keys: seq<nat>)
    ensures None in stored ==> keys == []
    ensures None !in stored ==> |keys| == |stored| && forall i | 0 <= i < |keys| :: stored[i] == Some(keys[i])
  {
    if None in stored then [] else seq(|stored|, i requires 0 <= i < |stored| => KeyAt(stored, i))
  }

  function KeyAt(stored: seq<Option<nat>>, i: nat): (key: nat)
    requires i < |stored| && None !in stored
    ensures stored[i] == Some(key)
  {
    assert stored[i] in stored;
    stored[i].value
  }

  function Encoded(keys: seq<nat>): (stored: seq<Option<nat>>)
    ensures Loaded(stored) == keys
  {
    seq(|keys|, i requires 0 <= i < |keys| => Some(keys[i]))
  }

  /** The part of the RP's key storage the ratchet depends on; an entry that does not decode is `None`. */
  class KeyStorage {
    var refreshKeys: seq<Option<nat>>

    constructor ()
      ensures refreshKeys == []
    {
      refreshKeys := [];
    }

    method LoadRefreshKeys() returns (keys: seq<nat>)
      ensures keys == Loaded(refreshKeys)
    {
      keys := [];
      for i := 0 to |refreshKeys|
        invariant |keys| == i && forall k | 0 <= k < i :: refreshKeys[k] == Some(keys[k])
      {
        if refreshKeys[i].None? { return []; }
        keys := keys + [refreshKeys[i].value];
      }
    }

    method SaveRefreshKeys(rsk: seq<nat>, saveOk: bool)
      modifies this
      ensures refreshKeys == if saveOk && rsk != [] then Encoded(rsk) else old(refreshKeys)
    {
      if |rsk| == 0 { return; }
      var hexes := [];
      for i := 0 to |rsk|
        invariant hexes == Encoded(rsk[..i])
      {
        hexes := hexes + [Some(rsk[i])];
      }
      if saveOk {
        refreshKeys := hexes;
      }
    }
  }

  class RefreshTokenHelper {
    var rsk: seq<nat>
    var rpk: seq<Pub>
    var rk: Key
    var ck: Key
    var seeded: bool
    var dhB: Option<Pub>

    ghost predicate Valid()
      reads this
    {
      |rpk| == |rsk| && forall i | 0 <= i < |rsk| :: rpk[i] == Pub(rsk[i])
    }

    ghost function View(): State
      reads this
    {
      State(seeded, rk, ck, dhB)
    }

    constructor (precomputeN: int, storage: KeyStorage, draw: nat -> nat, saveOk: bool)
      modifies storage
      ensures Valid() && View() == FRESH
      ensures rsk == Pool(Loaded(old(storage.refreshKeys)), precomputeN, draw)
      ensures Loaded(storage.refreshKeys) == Persisted(Loaded(old(storage.refreshKeys)), precomputeN, draw, saveOk)
      ensures storage.refreshKeys == old(storage.refreshKeys) || storage.refreshKeys == Encoded(rsk)
    {
      rsk, rpk, rk, ck, seeded, dhB := [], [], NoKey, NoKey, false, None;
      new;
      var n := if precomputeN <= 0 then DEFAULT_POOL else precomputeN;
      var persisted := storage.LoadRefreshKeys();
      var restoreCount := if |persisted| < n then |persisted| else n;
      Restore(persisted, restoreCount);
      assert persisted[..|persisted|] == persisted;
      if |rsk| < n {
        TopUp(n, draw);
        storage.SaveRefreshKeys(rsk, saveOk);
      }
    }

    /** Takes over the first persisted keys. */
    method Restore(persisted: seq<nat>, count: nat)
      requires Valid() && rsk == [] && count <= |persisted|
      modifies `rsk, `rpk
      ensures Valid() && rsk == persisted[..count]
    {
      for i := 0 to count
        invariant Valid() && rsk == persisted[..i]
      {
        rsk := rsk + [persisted[i]];
        rpk := rpk + [Pub(persisted[i])];
      }
    }

    /** Draws new keys up to `n`. */
    method TopUp(n: nat, draw: nat -> nat)
      requires Valid() && |rsk| < n
      modifies `rsk, `rpk
      ensures Valid()
      ensures rsk == old(rsk) + seq(n - old(|rsk|), i requires 0 <= i < n - old(|rsk|) => draw(i))
    {
      ghost var before := rsk;
      var drawn := 0;
      while |rsk| < n
        invariant Valid() && |rsk| == |before| + drawn <= n
        invariant rsk == before + seq(drawn, i requires 0 <= i < drawn => draw(i))
      {
        rsk := rsk + [draw(drawn)];
        rpk := rpk + [Pub(draw(drawn))];
        drawn := drawn + 1;
      }
    }

    method PublicKeys() returns (out: seq<Header>)
      requires Valid()
      ensures out == Published(rsk)
      ensures |out| == |rsk| && forall i | 0 <= i < |rsk| :: out[i] == Point(Pub(rsk[i]))
    {
      out := [];
      for i := 0 to |rpk|
        invariant out == Published(rsk)[..i]
      {
        out := out + [Point(rpk[i])];
      }
    }

    method TakeDHStep(sk: nat, peerPk: Pub)
      requires Valid()
      modifies `rk, `ck, `dhB
      ensures Valid() && View() == DHStep(old(View()), sk, peerPk)
    {
      if dhB.None? || dhB.value != peerPk {
        dhB := Some(peerPk);
        var dh := DH(sk, peerPk);
        var (newRK, newCK) := KdfRK(rk, dh);
        rk, ck := newRK, newCK;
      }
    }

    method DecryptResponse(resp: Option<Reply>, sessionKS: Key) returns (r: Result<string, Error>)
      requires Valid()
      modifies this
      ensures Valid() && rsk == old(rsk)
      ensures (View(), r) == Decrypt(old(View()), rsk, resp, sessionKS)
    {
      if resp.None? { return Err(NilResponse); }
      var Reply(hdr, seqNo, c) := resp.value;
      if !seeded {
        rk := sessionKS;
        seeded := true;
      }
      if seqNo >= |rsk| { return Err(SeqOutOfRange); }
      if !hdr.Point? { return Err(InvalidHdr); }
      var peerPk := hdr.pk;
      TakeDHStep(rsk[seqNo], peerPk);
      var (newCK, mk) := KdfCK(ck);
      ck := newCK;
      var plain := Open(mk, c, Aad(Point(rpk[seqNo]), seqNo));
      if plain.None? { return Err(DecryptionFailed); }
      if plain.value.NotJson? { return Err(InvalidPayload); }
      if plain.value.accessToken == "" { return Err(EmptyAccessToken); }
      return Ok(plain.value.accessToken);
    }
  }

  /** The prekey list the broker is handed at registration. */
  function Published(rsk: seq<nat>): (out: seq<Header>)
    ensures |out| == |rsk|
  {
    seq(|rsk|, i requires 0 <= i < |rsk| => Point(Pub(rsk[i])))
  }

  // ---------------------------------------------------------------- restarts

  datatype Start = Start(precomputeN: int, draw: nat -> nat, saveOk: bool)

  function PersistedAfter(persisted: seq<nat>, starts: seq<Start>): seq<nat> {
    if starts == [] then persisted
    else
      var s := starts[|starts| - 1];
      Persisted(PersistedAfter(persisted, starts[..|starts| - 1]), s.precomputeN, s.draw, s.saveOk)
  }

  /** The pool held while start `i` is running. */
  function PoolDuring(persisted: seq<nat>, starts: seq<Start>, i: nat): (pool: seq<nat>)
    requires i < |starts|
    ensures |pool| == PoolSize(starts[i].precomputeN)
  {
    Pool(PersistedAfter(persisted, starts[..i]), starts[i].precomputeN, starts[i].draw)
  }

  /** Across restarts with any pool sizes, the persisted list only ever grows by a suffix. */
  lemma {:induction false} PersistedOnlyGrows(persisted: seq<nat>, starts: seq<Start>, i: nat, j: nat)
    requires i <= j <= |starts|
    ensures PersistedAfter(persisted, starts[..i]) <= PersistedAfter(persisted, starts[..j])
  {
    if i < j {
      PersistedOnlyGrows(persisted, starts, i, j - 1);
      assert starts[..j][..j - 1] == starts[..j - 1];
    }
  }

  /** A start's pool is durable when it draws no new keys, or saving them works. */
  predicate Durable(persisted: seq<nat>, s: Start) {
    PoolSize(s.precomputeN) <= |persisted| || s.saveOk
  }

  predicate AgreeWhereBothReach(a: seq<nat>, b: seq<nat>) {
    forall k | 0 <= k < |a| && k < |b| :: a[k] == b[k]
  }

  /**
   A public key the broker stored during start `i` still matches the key the RP holds at that index
   during any later start `j`, provided start `i` drew no new keys or could save them.
   */
  lemma StoredPrekeysStayMatched(persisted: seq<nat>, starts: seq<Start>, i: nat, j: nat)
    requires i <= j < |starts|
    requires Durable(PersistedAfter(persisted, starts[..i]), starts[i])
    ensures AgreeWhereBothReach(PoolDuring(persisted, starts, i), PoolDuring(persisted, starts, j))
    ensures forall k | 0 <= k < |PoolDuring(persisted, starts, i)| && k < |PoolDuring(persisted, starts, j)| ::
              Published(PoolDuring(persisted, starts, i))[k] == Point(Pub(PoolDuring(persisted, starts, j)[k]))
  {
    if i < j {
      var atI, afterI := PersistedAfter(persisted, starts[..i]), PersistedAfter(persisted, starts[..i + 1]);
      assert starts[..i + 1][..i] == starts[..i];
      assert PoolDuring(persisted, starts, i) <= afterI;
      PersistedOnlyGrows(persisted, starts, i + 1, j);
    }
  }

  /**
   That proviso is exact. The next start agrees with the pool of this one whatever size it is given
   and whatever keys it draws, if and only if this one drew nothing new or could save what it drew.
   */
  lemma MatchedIffDurable(persisted: seq<nat>, s: Start)
    ensures (forall n: int, draw: nat -> nat ::
               AgreeWhereBothReach(Pool(persisted, s.precomputeN, s.draw),
                                   Pool(Persisted(persisted, s.precomputeN, s.draw, s.saveOk), n, draw)))
            <==> Durable(persisted, s)
  {
    var pool := Pool(persisted, s.precomputeN, s.draw);
    var after := Persisted(persisted, s.precomputeN, s.draw, s.saveOk);
    if Durable(persisted, s) {
      assert pool <= after;
    } else {
      var other: nat -> nat := i => s.draw(i) + 1;
      var next := Pool(after, s.precomputeN, other);
      assert pool[|persisted|] == s.draw(0) && next[|persisted|] == s.draw(0) + 1;
      assert !AgreeWhereBothReach(pool, next);
    }
  }

  /** A start that fails the proviso: the pool is drawn, saving fails, and the next start draws other keys. */
  lemma UnsavedPoolIsLost()
    ensures var first, second := Start(1, _ => 7, false), Start(1, _ => 8, true);
            && PoolDuring([], [first, second], 0) == [7] && PoolDuring([], [first, second], 1) == [8]
            && Published(PoolDuring([], [first, second], 0))[0] != Point(Pub(PoolDuring([], [first, second], 1)[0]))
  {
    var first, second := Start(1, _ => 7, false), Start(1, _ => 8, true);
    var starts := [first, second];
    assert starts[..1] == [first] && starts[..0] == [] && [first][..0] == [];
  }
}

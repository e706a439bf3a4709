/**
 HMAC and HKDF as the browser's hashing engine computes them (_HMAC, expand and hkdf in
 tca/dvf.bundle.js): cloned midstates, a worker instance used over and over, an unrolled last block,
 and buffers that alias one another.
 */
module Hkdf {
  import opened Wrappers
  import opened HashMD

  datatype HkdfError = PrkTooShort | LengthTooLarge

  // ---------------------------------------------------------------- the standards

  /** Section 2 of RFC 2104: the key, hashed first if it is longer than a block, padded to a block. */
  function KeyBlock(h: Algorithm, key: seq<byte>): (r: seq<byte>)
    requires ValidAlgorithm(h)
    ensures |r| == h.blockLen
  {
    var k := if |key| > h.blockLen then Hash(h, key) else key;
    k + Zeros(h.blockLen - |k|)
  }

  function XorEach(bs: seq<byte>, x: byte): (r: seq<byte>)
    ensures |r| == |bs|
  {
    seq(|bs|, i requires 0 <= i < |bs| => bs[i] ^ x)
  }

  function InnerPad(h: Algorithm, key: seq<byte>): (r: seq<byte>)
    requires ValidAlgorithm(h)
    ensures |r| == h.blockLen
  {
    XorEach(KeyBlock(h, key), 0x36)
  }

  function OuterPad(h: Algorithm, key: seq<byte>): (r: seq<byte>)
    requires ValidAlgorithm(h)
    ensures |r| == h.blockLen
  {
    XorEach(KeyBlock(h, key), 0x5c)
  }

  /** Section 2 of RFC 2104. */
  function Hmac(h: Algorithm, key: seq<byte>, msg: seq<byte>): (r: seq<byte>)
    requires ValidAlgorithm(h)
    ensures |r| == h.outputLen
  {
    Hash(h, OuterPad(h, key) + Hash(h, InnerPad(h, key) + msg))
  }

  /** T(n) of section 2.3 of RFC 5869. */
  function T(h: Algorithm, prk: seq<byte>, info: seq<byte>, n: nat): (r: seq<byte>)
    requires ValidAlgorithm(h)
    ensures |r| == if n == 0 then 0 else h.outputLen
  {
    if n == 0 then [] else Hmac(h, prk, T(h, prk, info, n - 1) + info + [Byte(n)])
  }

  /** T(1) | T(2) | ... | T(n). */
  function Blocks(h: Algorithm, prk: seq<byte>, info: seq<byte>, n: nat): (r: seq<byte>)
    requires ValidAlgorithm(h)
    ensures |r| == n * h.outputLen
  {
    if n == 0 then [] else Blocks(h, prk, info, n - 1) + T(h, prk, info, n)
  }

  /** ceil(length / olen). */
  function BlockCount(length: nat, olen: nat): nat
    requires olen > 0
  {
    (length + olen - 1) / olen
  }

  lemma BlockCountCovers(length: nat, olen: nat)
    requires olen > 0
    ensures var n := BlockCount(length, olen);
            && n * olen >= length && (n == 0 <==> length == 0)
            && (length <= 255 * olen ==> n <= 255)
  {
    var m := length + olen - 1;
    QuotientBounds(m / olen, m % olen, length, olen);
  }

  lemma QuotientBounds(n: int, r: int, length: nat, olen: nat)
    requires length + olen - 1 == olen * n + r && 0 <= r < olen
    ensures n * olen >= length && (n <= 0 <==> length == 0) && (length == 0 ==> n == 0)
    ensures length <= 255 * olen ==> n <= 255
  {
    assert n * olen == length + olen - 1 - r;
    if length == 0 {
      Between(n, -1, 1, olen);
    } else {
      Between(n, 0, n + 1, olen);
    }
    if length <= 255 * olen {
      Between(n, -1, 256, olen);
    }
  }

  lemma Between(n: int, lo: int, hi: int, olen: nat)
    requires lo * olen < n * olen < hi * olen
    ensures lo < n < hi
  {}

  /** The output keying material: the first L octets of the blocks. */
  function Okm(h: Algorithm, prk: seq<byte>, info: seq<byte>, length: nat): (r: seq<byte>)
    requires ValidAlgorithm(h)
    ensures |r| == length
  {
    BlockCountCovers(length, h.outputLen);
    Blocks(h, prk, info, BlockCount(length, h.outputLen))[..length]
  }

  // ---------------------------------------------------------------- what the definitions depend on

  /** HMAC written out: the key as a block, flipped by 0x36 and by 0x5c, around message and inner digest. */
  lemma HmacWrittenOut(h: Algorithm, key: seq<byte>, msg: seq<byte>)
    requires ValidAlgorithm(h)
    ensures var k := if |key| > h.blockLen then Hash(h, key) else key;
            && |k| <= h.blockLen && KeyBlock(h, key)[..|k|] == k
            && (forall i | |k| <= i < h.blockLen :: KeyBlock(h, key)[i] == 0)
            && (forall i | 0 <= i < h.blockLen :: InnerPad(h, key)[i] == KeyBlock(h, key)[i] ^ 0x36)
            && (forall i | 0 <= i < h.blockLen :: OuterPad(h, key)[i] == KeyBlock(h, key)[i] ^ 0x5c)
    ensures Hmac(h, key, msg) == Hash(h, OuterPad(h, key) + Hash(h, InnerPad(h, key) + msg))
  {}

  /** Under one key, equal codes of different messages mean a collision of the compression function. */
  lemma EqualHmacsCollide(h: Algorithm, key: seq<byte>, m: seq<byte>, m': seq<byte>)
    requires ValidAlgorithm(h) && h.outputLen == 4 * |h.iv|
    requires h.blockLen + |m| < MAX_MESSAGE && h.blockLen + |m'| < MAX_MESSAGE && 2 * h.blockLen < MAX_MESSAGE
    requires m != m' && Hmac(h, key, m) == Hmac(h, key, m')
    ensures Collides(h)
  {
    var i, o := InnerPad(h, key), OuterPad(h, key);
    var d, d' := Hash(h, i + m), Hash(h, i + m');
    assert (i + m)[|i|..] == m && (i + m')[|i|..] == m';
    assert (o + d)[|o|..] == d && (o + d')[|o|..] == d';
    if d == d' {
      EqualDigestsCollide(h, i + m, i + m');
    } else {
      EqualDigestsCollide(h, o + d, o + d');
    }
  }

  ghost predicate GrowsAt(f: nat -> seq<byte>, k: nat) {
    f(k) <= f(k + 1)
  }

  lemma {:induction false} Grows(f: nat -> seq<byte>, m: nat, n: nat)
    requires m <= n && forall k: nat :: GrowsAt(f, k)
    ensures f(m) <= f(n)
  {
    if m < n {
      Grows(f, m, n - 1);
      assert GrowsAt(f, n - 1);
    }
  }

  lemma BlocksGrow(h: Algorithm, prk: seq<byte>, info: seq<byte>, m: nat, n: nat)
    requires ValidAlgorithm(h) && m <= n
    ensures Blocks(h, prk, info, m) <= Blocks(h, prk, info, n)
  {
    var f: nat -> seq<byte> := (k: nat) => if ValidAlgorithm(h) then Blocks(h, prk, info, k) else [];
    forall k: nat
      ensures GrowsAt(f, k)
    {
      OneMoreGrows(h, prk, info, k);
    }
    Grows(f, m, n);
  }

  lemma OneMoreGrows(h: Algorithm, prk: seq<byte>, info: seq<byte>, n: nat)
    requires ValidAlgorithm(h)
    ensures Blocks(h, prk, info, n) <= Blocks(h, prk, info, n + 1)
  {}

  /** The output for a shorter length is the beginning of that for a longer one. */
  lemma OkmPrefix(h: Algorithm, prk: seq<byte>, info: seq<byte>, length: nat, more: nat)
    requires ValidAlgorithm(h) && length <= more
    ensures Okm(h, prk, info, length) == Okm(h, prk, info, more)[..length]
  {
    var m, n := BlockCount(length, h.outputLen), BlockCount(more, h.outputLen);
    BlockCountCovers(length, h.outputLen);
    BlockCountCovers(more, h.outputLen);
    MoreBlocks(length, more, h.outputLen);
    BlocksGrow(h, prk, info, m, n);
  }

  lemma MoreBlocks(length: nat, more: nat, olen: nat)
    requires olen > 0 && length <= more
    ensures BlockCount(length, olen) <= BlockCount(more, olen)
  {
    var a, b := length + olen - 1, more + olen - 1;
    QuotientsOrdered(a / olen, a % olen, b / olen, b % olen, olen);
  }

  lemma QuotientsOrdered(q: int, r: nat, q': int, r': nat, m: nat)
    requires m > 0 && r < m && r' < m && m * q + r <= m * q' + r'
    ensures q <= q'
  {
    if q' < q {
      ScaledGap(q', q, m);
    }
  }

  lemma ScaledGap(q': int, q: int, m: nat)
    requires q' + 1 <= q
    ensures m * q' + m <= m * q
  {
    var d := q - q' - 1;
    NonNegative(m, d);
    WithGap(m, q, q', d);
  }

  lemma NonNegative(m: nat, d: int)
    requires d >= 0
    ensures m * d >= 0
  {}

  lemma WithGap(m: int, q: int, q': int, d: int)
    requires q == q' + 1 + d
    ensures m * q == m * q' + m + m * d
  {}

  lemma ExactCount(n: nat, olen: nat)
    requires olen > 0
    ensures BlockCount(n * olen, olen) == n
  {
    var m := n * olen + olen - 1;
    QuotientsOrdered(m / olen, m % olen, n, olen - 1, olen);
    QuotientsOrdered(n, olen - 1, m / olen, m % olen, olen);
  }

  /** For whole blocks, the output is the blocks. */
  lemma OkmOfWholeBlocks(h: Algorithm, prk: seq<byte>, info: seq<byte>, n: nat, length: nat)
    requires ValidAlgorithm(h) && length == n * h.outputLen
    ensures Okm(h, prk, info, length) == Blocks(h, prk, info, n)
  {
    ExactCount(n, h.outputLen);
    var all := Blocks(h, prk, info, n);
    assert all[..|all|] == all;
  }

  lemma NextT(h: Algorithm, prk: seq<byte>, info: seq<byte>, n: nat)
    requires ValidAlgorithm(h) && n > 0
    ensures T(h, prk, info, n) == Hmac(h, prk, (if n == 1 then [] else T(h, prk, info, n - 1)) + info + [Byte(n)])
    ensures Blocks(h, prk, info, n) == Blocks(h, prk, info, n - 1) + T(h, prk, info, n)
  {}

  lemma EndOf(front: seq<byte>, t: seq<byte>, all: seq<byte>)
    requires all == front + t
    ensures all[|all| - |t|..] == t
  {}

  /** The output for one block is the HMAC, under the key, of the info and the number one. */
  lemma OkmFirst(h: Algorithm, prk: seq<byte>, info: seq<byte>)
    requires ValidAlgorithm(h)
    ensures Okm(h, prk, info, h.outputLen) == Hmac(h, prk, info + [1])
  {
    OkmOfWholeBlocks(h, prk, info, 1, h.outputLen);
    NextT(h, prk, info, 1);
    NothingBefore(info, T(h, prk, info, 1));
  }

  lemma NothingBefore(info: seq<byte>, t: seq<byte>)
    ensures [] + info + [Byte(1)] == info + [1] && [] + t == t
  {}

  /**
   The output for n blocks is that for one block less, followed by the HMAC, under the key, of the last
   block of that, the info and the number n.
   */
  lemma OkmNext(h: Algorithm, prk: seq<byte>, info: seq<byte>, n: nat, less: nat, length: nat)
    requires ValidAlgorithm(h) && n > 1 && less == (n - 1) * h.outputLen && length == less + h.outputLen
    ensures less >= h.outputLen
    ensures var before := Okm(h, prk, info, less);
            Okm(h, prk, info, length)
            == before + Hmac(h, prk, before[less - h.outputLen..] + info + [Byte(n)])
  {
    var m := n - 1;
    Grown(m, h.outputLen);
    OkmOfWholeBlocks(h, prk, info, m, less);
    OkmOfWholeBlocks(h, prk, info, n, length);
    NextT(h, prk, info, n);
    LastIsT(h, prk, info, m);
  }

  lemma LastIsT(h: Algorithm, prk: seq<byte>, info: seq<byte>, n: nat)
    requires ValidAlgorithm(h) && n > 0
    ensures var all := Blocks(h, prk, info, n);
            |all| >= h.outputLen && all[|all| - h.outputLen..] == T(h, prk, info, n)
  {
    NextT(h, prk, info, n);
    EndOf(Blocks(h, prk, info, n - 1), T(h, prk, info, n), Blocks(h, prk, info, n));
  }

  lemma Grown(m: nat, olen: nat)
    requires m > 0
    ensures m * olen >= olen && m * olen + olen == (m + 1) * olen
  {
    ScaleUp(1, m, olen);
  }

  // ---------------------------------------------------------------- HMAC

  class HMAC {
    const alg: Algorithm
    const iHash: HashMD
    const oHash: HashMD
    var finished: bool
    var destroyed: bool
    ghost const key: seq<byte>
    ghost var msg: seq<byte>

    ghost function Repr(): set<object> {
      {this, iHash, oHash, iHash.buffer, oHash.buffer}
    }

    ghost predicate Valid()
      reads Repr()
    {
      && iHash.Valid() && oHash.Valid() && iHash.alg == alg == oHash.alg
      && iHash != oHash && iHash.buffer != oHash.buffer
    }

    ghost predicate Live()
      reads Repr()
    {
      && Valid() && !finished && !destroyed
      && iHash.Live() && iHash.msg == InnerPad(alg, key) + msg
      && oHash.Live() && oHash.msg == OuterPad(alg, key)
    }

    constructor (alg: Algorithm, key: seq<byte>)
      requires ValidAlgorithm(alg) && |key| < MAX_MESSAGE
      ensures Live() && this.alg == alg && this.key == key && msg == [] && fresh(Repr())
    {
      this.alg, this.key := alg, key;
      finished, destroyed, msg := false, false, [];
      var inner, outer := KeyUp(alg, key);
      iHash, oHash := inner, outer;
      new;
      assert InnerPad(alg, key) + [] == InnerPad(alg, key);
    }

    method Update(buf: seq<byte>) returns (r: Result<(), HashError>)
      requires Valid() && (!finished && !destroyed ==> Live())
      modifies this, iHash, iHash.buffer
      ensures Valid()
      ensures old(destroyed) ==> r == Err(Destroyed)
      ensures !old(destroyed) && old(finished) ==> r == Err(AlreadyFinished)
      ensures !old(destroyed) && !old(finished) ==> r == Ok(()) && Live() && msg == old(msg) + buf
    {
      if destroyed { return Err(Destroyed); }
      if finished { return Err(AlreadyFinished); }
      r := iHash.Update(buf);
      AppendAssoc(InnerPad(alg, key), msg, buf);
      msg := msg + buf;
    }

    method DigestInto(out: array<byte>) returns (r: Result<(), HashError>)
      requires Valid() && (!finished && !destroyed ==> Live() && alg.blockLen + |msg| < MAX_MESSAGE)
      requires out != iHash.buffer && out != oHash.buffer && 2 * alg.blockLen < MAX_MESSAGE
      modifies Repr(), out
      ensures Valid()
      ensures old(destroyed) ==> r == Err(Destroyed)
      ensures !old(destroyed) && old(finished) ==> r == Err(AlreadyFinished)
      ensures !old(destroyed) && !old(finished) && out.Length < alg.outputLen ==> r == Err(OutputTooShort)
      ensures !old(destroyed) && !old(finished) && out.Length >= alg.outputLen ==>
                r == Ok(()) && destroyed && out[..alg.outputLen] == Hmac(alg, key, old(msg))
    {
      if destroyed { return Err(Destroyed); }
      if finished { return Err(AlreadyFinished); }
      if out.Length < alg.outputLen { return Err(OutputTooShort); }
      Finish(out);
      Destroy();
      return Ok(());
    }

    /** The inner digest, into the outer hash, and the outer digest over it. */
    method Finish(out: array<byte>)
      requires Live() && alg.blockLen + |msg| < MAX_MESSAGE && 2 * alg.blockLen < MAX_MESSAGE
      requires out != iHash.buffer && out != oHash.buffer && out.Length >= alg.outputLen
      modifies `finished, iHash, iHash.buffer, oHash, oHash.buffer, out
      ensures Valid() && out[..alg.outputLen] == Hmac(alg, key, msg)
    {
      finished := true;
      var _ := iHash.DigestInto(out);
      var _ := oHash.Update(out[..alg.outputLen]);
      var _ := oHash.DigestInto(out);
    }

    method Digest() returns (r: Result<array<byte>, HashError>)
      requires Valid() && (!finished && !destroyed ==> Live() && alg.blockLen + |msg| < MAX_MESSAGE)
      requires 2 * alg.blockLen < MAX_MESSAGE
      modifies Repr()
      ensures Valid()
      ensures old(destroyed) ==> r == Err(Destroyed)
      ensures !old(destroyed) && old(finished) ==> r == Err(AlreadyFinished)
      ensures !old(destroyed) && !old(finished) ==>
                r.Ok? && fresh(r.value) && destroyed && r.value[..] == Hmac(alg, key, old(msg))
    {
      var out := new byte[alg.outputLen](_ => 0);
      var done := DigestInto(out);
      if done.Err? { return Err(done.error); }
      assert out[..alg.outputLen] == out[..];
      return Ok(out);
    }

    method Destroy()
      requires Valid()
      modifies Repr()
      ensures Valid() && destroyed
    {
      destroyed := true;
      oHash.Destroy();
      iHash.Destroy();
    }
  }

  /** Two fresh hashes that have absorbed the inner and the outer pad. */
  method KeyUp(alg: Algorithm, key: seq<byte>) returns (inner: HashMD, outer: HashMD)
    requires ValidAlgorithm(alg) && |key| < MAX_MESSAGE
    ensures inner.Live() && inner.alg == alg && inner.msg == InnerPad(alg, key)
    ensures outer.Live() && outer.alg == alg && outer.msg == OuterPad(alg, key)
    ensures inner != outer && inner.buffer != outer.buffer && fresh({inner, outer, inner.buffer, outer.buffer})
  {
    inner := new HashMD(alg);
    outer := new HashMD(alg);
    var pad := PadKey(alg, key);
    XorInto(pad, 54);
    Absorb(inner, pad);
    XorInto(pad, 54 ^ 92);
    PadsFromKeyBlock(KeyBlock(alg, key));
    Absorb(outer, pad);
    Clean(pad);
  }

  /** The first update of a new hash. */
  method Absorb(hash: HashMD, pad: array<byte>)
    requires hash.Live() && hash.msg == [] && pad != hash.buffer
    modifies hash, hash.buffer
    ensures hash.Live() && hash.msg == pad[..]
  {
    var _ := hash.Update(pad[..]);
    assert [] + pad[..] == pad[..];
  }

  /** The key as one block. */
  method PadKey(alg: Algorithm, key: seq<byte>) returns (pad: array<byte>)
    requires ValidAlgorithm(alg) && |key| < MAX_MESSAGE
    ensures fresh(pad) && pad[..] == KeyBlock(alg, key)
  {
    var k := key;
    if |key| > alg.blockLen {
      var hash := new HashMD(alg);
      var _ := hash.Update(key);
      assert hash.msg == key;
      var digest := hash.Digest();
      k := digest.value[..];
    }
    pad := new byte[alg.blockLen](_ => 0);
    forall i | 0 <= i < |k| {
      pad[i] := k[i];
    }
    assert pad[..] == k + Zeros(alg.blockLen - |k|);
  }

  method XorInto(pad: array<byte>, x: byte)
    modifies pad
    ensures pad[..] == XorEach(old(pad[..]), x)
  {
    for i := 0 to pad.Length
      invariant forall j | 0 <= j < i :: pad[j] == old(pad[j]) ^ x
      invariant forall j | i <= j < pad.Length :: pad[j] == old(pad[j])
    {
      pad[i] := pad[i] ^ x;
    }
  }

  /** Flipping the inner pad by 0x36 ^ 0x5c turns it into the outer one. */
  lemma PadsFromKeyBlock(k: seq<byte>)
    ensures XorEach(XorEach(k, 54), 54 ^ 92) == XorEach(k, 0x5c)
  {
    forall i | 0 <= i < |k|
      ensures (k[i] ^ 54) ^ (54 ^ 92) == k[i] ^ 92
    {}
  }

  method Clean(a: array<byte>)
    modifies a
    ensures a[..] == Zeros(a.Length)
  {
    forall i | 0 <= i < a.Length {
      a[i] := 0;
    }
  }

  // ---------------------------------------------------------------- HKDF-Expand

  /** [T,] info, counter into `work`, and the digest over the front of `t`. */
  method Inner(work: HashMD, chained: bool, t: array<byte>, info: seq<byte>, counter: byte)
    requires work.Live() && t.Length == work.alg.outputLen && t != work.buffer
    requires |work.msg| + work.alg.outputLen + |info| + 1 < MAX_MESSAGE
    modifies work, work.buffer, t
    ensures work.Valid()
    ensures t[..] == Hash(work.alg, old(work.msg) + (if chained then old(t[..]) else []) + info + [counter])
  {
    ghost var start := work.msg;
    if chained {
      var _ := work.Update(t[..]);
    }
    assert !chained ==> start + [] == start;
    var _ := work.Update(info);
    var _ := work.Update([counter]);
    var _ := work.DigestInto(t);
    assert t[..t.Length] == t[..];
  }

  /** The inner digest in `t` into `work`, and the outer digest back into `t`. */
  method Outer(work: HashMD, t: array<byte>)
    requires work.Live() && t.Length == work.alg.outputLen && t != work.buffer
    requires |work.msg| + work.alg.outputLen < MAX_MESSAGE
    modifies work, work.buffer, t
    ensures work.Valid()
    ensures t[..] == Hash(work.alg, old(work.msg) + old(t[..]))
  {
    var _ := work.Update(t[..]);
    var _ := work.DigestInto(t);
    assert t[..t.Length] == t[..];
  }

  /** One HMAC from cloned midstates: the worker takes over the inner state, then the outer one. */
  method BlockFromMidstates(iHash: HashMD, oHash: HashMD, worker: HashMD, t: array<byte>,
                            ghost prk: seq<byte>, info: seq<byte>, n: nat)
    requires Midstates(iHash, oHash, prk) && Apart(iHash, oHash, worker, t)
    requires 0 < n < 256 && t.Length == iHash.alg.outputLen && (n > 1 ==> t[..] == T(iHash.alg, prk, info, n - 1))
    requires 2 * iHash.alg.blockLen + |info| + 1 < MAX_MESSAGE
    modifies worker, worker.buffer, t
    ensures worker.Valid()
    ensures t[..] == T(iHash.alg, prk, info, n)
  {
    var h := iHash.alg;
    iHash.CloneInto(worker);
    Inner(worker, n > 1, t, info, Byte(n));
    assert t[..] == Hash(h, InnerPad(h, prk) + (T(h, prk, info, n - 1) + info + [Byte(n)])) by {
      Reassociate(InnerPad(h, prk), T(h, prk, info, n - 1), info, [Byte(n)]);
    }
    oHash.CloneInto(worker);
    Outer(worker, t);
  }

  lemma AppendAssoc(a: seq<byte>, b: seq<byte>, c: seq<byte>)
    ensures a + b + c == a + (b + c)
  {}

  lemma Reassociate(a: seq<byte>, b: seq<byte>, c: seq<byte>, d: seq<byte>)
    ensures a + b + c + d == a + (b + c + d)
  {}

  /** Both hashes sit right behind their key pads. */
  ghost predicate Midstates(iHash: HashMD, oHash: HashMD, prk: seq<byte>)
    reads iHash, iHash.buffer, oHash, oHash.buffer
  {
    && iHash.Live() && oHash.Live() && iHash.alg == oHash.alg
    && iHash.msg == InnerPad(iHash.alg, prk) && oHash.msg == OuterPad(iHash.alg, prk)
  }

  /** No two of the instances share anything, and none of them uses `t` as its buffer. */
  ghost predicate Apart(iHash: HashMD, oHash: HashMD, worker: HashMD, t: array<byte>)
    reads worker
  {
    && worker.Valid() && worker.alg == iHash.alg
    && iHash != oHash && worker != iHash && worker != oHash
    && iHash.buffer != oHash.buffer && worker.buffer != iHash.buffer && worker.buffer != oHash.buffer
    && t != iHash.buffer && t != oHash.buffer && t != worker.buffer
  }

  /** The last block runs on the midstates themselves, which are not needed any more. */
  method LastBlock(iHash: HashMD, oHash: HashMD, t: array<byte>, ghost prk: seq<byte>, info: seq<byte>, n: nat)
    requires Midstates(iHash, oHash, prk) && iHash != oHash && iHash.buffer != oHash.buffer
    requires t != iHash.buffer && t != oHash.buffer
    requires 0 < n < 256 && t.Length == iHash.alg.outputLen && (n > 1 ==> t[..] == T(iHash.alg, prk, info, n - 1))
    requires 2 * iHash.alg.blockLen + |info| + 1 < MAX_MESSAGE
    modifies iHash, iHash.buffer, oHash, oHash.buffer, t
    ensures iHash.Valid() && oHash.Valid()
    ensures t[..] == T(iHash.alg, prk, info, n)
  {
    var h := iHash.alg;
    Inner(iHash, n > 1, t, info, Byte(n));
    assert t[..] == Hash(h, InnerPad(h, prk) + (T(h, prk, info, n - 1) + info + [Byte(n)])) by {
      Reassociate(InnerPad(h, prk), T(h, prk, info, n - 1), info, [Byte(n)]);
    }
    Outer(oHash, t);
  }

  /** Copies one block of output into place; a block that is already there stays. */
  method Place(okm: array<byte>, t: array<byte>, offset: nat)
    requires offset + t.Length <= okm.Length && (okm == t ==> offset == 0)
    modifies okm
    ensures okm[..offset + t.Length] == old(okm[..offset]) + old(t[..])
    ensures t[..] == old(t[..])
  {
    forall i | 0 <= i < t.Length {
      okm[offset + i] := t[i];
    }
  }

  /** The output buffer is none of the buffers the computation works in. */
  predicate OutputApart(iHash: HashMD, oHash: HashMD, worker: HashMD, t: array<byte>, okm: array<byte>) {
    okm != t && okm != iHash.buffer && okm != oHash.buffer && okm != worker.buffer
  }

  /** After n blocks: T holds the last one, and the output starts with all of them. */
  ghost predicate Progress(h: Algorithm, prk: seq<byte>, info: seq<byte>, n: nat, t: seq<byte>, okm: seq<byte>)
    requires ValidAlgorithm(h)
  {
    (n > 0 ==> t == T(h, prk, info, n)) && Blocks(h, prk, info, n) <= okm
  }

  lemma NoBlocksYet(h: Algorithm, prk: seq<byte>, info: seq<byte>, t: seq<byte>, okm: seq<byte>)
    requires ValidAlgorithm(h)
    ensures Progress(h, prk, info, 0, t, okm)
  {}

  lemma OneMoreBlock(h: Algorithm, prk: seq<byte>, info: seq<byte>, n: nat, t: seq<byte>, okm: seq<byte>,
                     okm': seq<byte>, offset: nat)
    requires ValidAlgorithm(h) && n > 0 && Blocks(h, prk, info, n - 1) <= okm && t == T(h, prk, info, n)
    requires offset == |Blocks(h, prk, info, n - 1)| && offset + |t| <= |okm'|
    requires okm'[..offset + |t|] == okm[..offset] + t
    ensures Progress(h, prk, info, n, t, okm')
  {
    PrefixGrows(Blocks(h, prk, info, n - 1), t, okm, okm', offset);
  }

  lemma PrefixGrows(front: seq<byte>, t: seq<byte>, okm: seq<byte>, okm': seq<byte>, offset: nat)
    requires offset == |front| && front <= okm && offset + |t| <= |okm'| && okm'[..offset + |t|] == okm[..offset] + t
    ensures front + t <= okm'
  {
    assert okm[..offset] == front;
  }

  /** Places block n behind the ones before it. */
  method PlaceBlock(ghost h: Algorithm, okm: array<byte>, t: array<byte>, offset: nat,
                    ghost prk: seq<byte>, ghost info: seq<byte>, ghost n: nat)
    requires ValidAlgorithm(h) && n > 0 && t[..] == T(h, prk, info, n) && Blocks(h, prk, info, n - 1) <= okm[..]
    requires offset == |Blocks(h, prk, info, n - 1)| && offset + t.Length <= okm.Length && (okm == t ==> offset == 0)
    modifies okm
    ensures Progress(h, prk, info, n, t[..], okm[..])
  {
    ghost var before := okm[..];
    Place(okm, t, offset);
    OneMoreBlock(h, prk, info, n, t[..], before, okm[..], offset);
  }

  /** Block n from clones of the midstates, placed right behind the ones before it. */
  method NextBlock(iHash: HashMD, oHash: HashMD, worker: HashMD, t: array<byte>, okm: array<byte>, offset: nat,
                   ghost prk: seq<byte>, info: seq<byte>, n: nat)
    requires Midstates(iHash, oHash, prk) && Apart(iHash, oHash, worker, t)
    requires OutputApart(iHash, oHash, worker, t, okm)
    requires 0 < n < 256 && t.Length == iHash.alg.outputLen && Progress(iHash.alg, prk, info, n - 1, t[..], okm[..])
    requires offset == (n - 1) * t.Length && offset + t.Length <= okm.Length
    requires 2 * iHash.alg.blockLen + |info| + 1 < MAX_MESSAGE
    modifies worker, worker.buffer, t, okm
    ensures worker.Valid() && Progress(iHash.alg, prk, info, n, t[..], okm[..])
  {
    BlockFromMidstates(iHash, oHash, worker, t, prk, info, n);
    PlaceBlock(iHash.alg, okm, t, offset, prk, info, n);
  }

  /** All blocks but the last. */
  method LeadingBlocks(iHash: HashMD, oHash: HashMD, worker: HashMD, t: array<byte>, okm: array<byte>,
                       ghost prk: seq<byte>, info: seq<byte>, blocks: nat)
    requires Midstates(iHash, oHash, prk) && Apart(iHash, oHash, worker, t)
    requires OutputApart(iHash, oHash, worker, t, okm)
    requires 1 < blocks < 256 && t.Length == iHash.alg.outputLen && okm.Length == blocks * t.Length
    requires 2 * iHash.alg.blockLen + |info| + 1 < MAX_MESSAGE
    modifies worker, worker.buffer, t, okm
    ensures worker.Valid() && Progress(iHash.alg, prk, info, blocks - 1, t[..], okm[..])
  {
    ghost var h := iHash.alg;
    var offset := 0;
    for counter := 0 to blocks - 1
      invariant worker.Valid() && offset == counter * t.Length
      invariant Progress(h, prk, info, counter, t[..], okm[..])
    {
      RoomForOne(counter, blocks, t.Length);
      NextBlock(iHash, oHash, worker, t, okm, offset, prk, info, counter + 1);
      offset := offset + t.Length;
    }
  }

  /** The leading blocks with the recycled instance as worker, or a new one. */
  method WorkLeadingBlocks(iHash: HashMD, oHash: HashMD, recycled: HashMD?, t: array<byte>, okm: array<byte>,
                           ghost prk: seq<byte>, info: seq<byte>, blocks: nat)
    requires Midstates(iHash, oHash, prk) && BuffersApart(iHash, oHash, t, okm) && okm != t
    requires recycled != null ==> Apart(iHash, oHash, recycled, t) && okm != recycled.buffer
    requires 1 < blocks < 256 && t.Length == iHash.alg.outputLen && okm.Length == blocks * t.Length
    requires 2 * iHash.alg.blockLen + |info| + 1 < MAX_MESSAGE
    modifies t, okm, if recycled == null then {} else {recycled, recycled.buffer}
    ensures Midstates(iHash, oHash, prk) && Progress(iHash.alg, prk, info, blocks - 1, t[..], okm[..])
  {
    var worker := PickWorker(iHash.alg, recycled);
    LeadingBlocks(iHash, oHash, worker, t, okm, prk, info, blocks);
    worker.Destroy();
  }

  /** The two hashes share nothing, and neither uses T or the output as its buffer. */
  predicate BuffersApart(iHash: HashMD, oHash: HashMD, t: array<byte>, okm: array<byte>) {
    && iHash != oHash && iHash.buffer != oHash.buffer
    && t != iHash.buffer && t != oHash.buffer && okm != iHash.buffer && okm != oHash.buffer
  }

  lemma ScaleUp(x: nat, y: nat, olen: nat)
    requires x <= y
    ensures x * olen <= y * olen
  {}

  lemma RoomForOne(counter: nat, blocks: nat, olen: nat)
    requires counter < blocks
    ensures counter * olen + olen <= blocks * olen
  {
    ScaleUp(counter + 1, blocks, olen);
  }

  /**
   HKDF-Expand. With a recycled HMAC, `prk` doubles as T and, when one block is enough, as the output,
   and is wiped unless it is what is returned; the recycled inner hash is the worker. Without one, `prk`
   is left alone.
   For every length up to 255 hash lengths the result is the output keying material of section 2.3 of
   RFC 5869.
   */
  method Expand(alg: Algorithm, prk: array<byte>, info: Option<seq<byte>>, length: nat, recycled: HMAC?)
    returns (r: Result<array<byte>, HkdfError>)
    requires ValidAlgorithm(alg) && prk.Length < MAX_MESSAGE
    requires 2 * alg.blockLen + (if info.Some? then |info.value| else 0) + 1 < MAX_MESSAGE
    requires recycled != null ==>
               recycled.Valid() && recycled.alg == alg && prk.Length == alg.outputLen && prk != recycled.iHash.buffer
    modifies if recycled == null then {} else {prk, recycled.iHash, recycled.iHash.buffer}
    ensures prk.Length < alg.outputLen ==> r == Err(PrkTooShort)
    ensures prk.Length >= alg.outputLen && length > 255 * alg.outputLen ==> r == Err(LengthTooLarge)
    ensures prk.Length >= alg.outputLen && length <= 255 * alg.outputLen ==>
              && r.Ok?
              && r.value[..] == Okm(alg, old(prk[..]), if info.Some? then info.value else [], length)
              && (recycled != null && r.value != prk ==> prk[..] == Zeros(prk.Length))
              && (r.value == prk ==> recycled != null && length == alg.outputLen)
  {
    var olen := alg.outputLen;
    if prk.Length < olen { return Err(PrkTooShort); }
    if length > 255 * olen { return Err(LengthTooLarge); }
    var blocks := BlockCount(length, olen);
    BlockCountCovers(length, olen);
    var inf := if info.None? then [] else info.value;
    if blocks == 0 {
      if recycled != null {
        Clean(prk);
      }
      var empty := new byte[0];
      return Ok(empty);
    }
    var okm, t := BlocksInto(alg, prk, inf, blocks, recycled);
    var out := Deliver(okm, t, length);
    return Ok(out);
  }

  /** Chooses the buffers for the output and for T and fills them. */
  method BlocksInto(alg: Algorithm, prk: array<byte>, info: seq<byte>, blocks: nat, recycled: HMAC?)
    returns (okm: array<byte>, t: array<byte>)
    requires ValidAlgorithm(alg) && alg.outputLen <= prk.Length < MAX_MESSAGE && 0 < blocks < 256
    requires 2 * alg.blockLen + |info| + 1 < MAX_MESSAGE
    requires recycled != null ==>
               recycled.Valid() && recycled.alg == alg && prk.Length == alg.outputLen && prk != recycled.iHash.buffer
    modifies if recycled == null then {} else {prk, recycled.iHash, recycled.iHash.buffer}
    ensures (t == prk || fresh(t)) && (okm == prk || fresh(okm))
    ensures recycled == null ==> fresh(t) && fresh(okm)
    ensures recycled != null ==> t == prk
    ensures okm == prk ==> recycled != null && blocks == 1
    ensures okm[..] == Blocks(alg, old(prk[..]), info, blocks)
  {
    okm, t := prk, prk;
    if recycled == null || blocks != 1 {
      okm := new byte[blocks * alg.outputLen](_ => 0);
    }
    if recycled == null {
      t := new byte[alg.outputLen](_ => 0);
    }
    Fill(alg, prk[..], info, blocks, t, okm, if recycled == null then null else recycled.iHash);
  }

  /** Wipes T unless it is the output, and cuts the output to length, wiping the longer buffer. */
  method Deliver(okm: array<byte>, t: array<byte>, length: nat) returns (res: array<byte>)
    requires length <= okm.Length
    modifies okm, t
    ensures res[..] == old(okm[..length])
    ensures res == okm || fresh(res)
    ensures res == okm <==> length == okm.Length
    ensures t != res ==> t[..] == Zeros(t.Length)
    ensures okm != res ==> okm[..] == Zeros(okm.Length)
  {
    if t != okm {
      Clean(t);
    }
    if length == okm.Length {
      assert okm[..length] == okm[..];
      return okm;
    }
    res := new byte[length](i requires 0 <= i < length <= okm.Length reads okm => okm[i]);
    assert res[..] == okm[..length];
    Clean(okm);
  }

  method PickWorker(alg: Algorithm, recycled: HashMD?) returns (worker: HashMD)
    requires ValidAlgorithm(alg) && (recycled != null ==> recycled.Valid() && recycled.alg == alg)
    ensures worker.Valid() && worker.alg == alg
    ensures if recycled != null then worker == recycled else fresh(worker) && fresh(worker.buffer)
  {
    if recycled != null {
      worker := recycled;
    } else {
      worker := new HashMD(alg);
    }
  }

  /** Computes all blocks into `okm`, with `t` for the current block and, if there is one, the recycled worker. */
  method Fill(alg: Algorithm, prk: seq<byte>, info: seq<byte>, blocks: nat, t: array<byte>, okm: array<byte>,
              recycled: HashMD?)
    requires ValidAlgorithm(alg) && |prk| < MAX_MESSAGE && 2 * alg.blockLen + |info| + 1 < MAX_MESSAGE
    requires 0 < blocks < 256 && t.Length == alg.outputLen && okm.Length == blocks * t.Length
    requires okm == t ==> blocks == 1
    requires recycled != null ==>
               recycled.Valid() && recycled.alg == alg && t != recycled.buffer && okm != recycled.buffer
    modifies t, okm, if recycled == null then {} else {recycled, recycled.buffer}
    ensures okm[..] == Blocks(alg, prk, info, blocks)
  {
    var iHash, oHash := KeyedHashes(alg, prk);
    if blocks > 1 {
      WorkLeadingBlocks(iHash, oHash, recycled, t, okm, prk, info, blocks);
    } else {
      NoBlocksYet(alg, prk, info, t[..], okm[..]);
    }
    FinalBlock(iHash, oHash, t, okm, prk, info, blocks);
    iHash.Destroy();
    oHash.Destroy();
  }

  /** The two hashes of a fresh HMAC, right behind their key pads. */
  method KeyedHashes(alg: Algorithm, prk: seq<byte>) returns (iHash: HashMD, oHash: HashMD)
    requires ValidAlgorithm(alg) && |prk| < MAX_MESSAGE
    ensures Midstates(iHash, oHash, prk) && iHash.alg == alg && iHash != oHash && iHash.buffer != oHash.buffer
    ensures fresh({iHash, iHash.buffer, oHash, oHash.buffer})
  {
    var hmac := new HMAC(alg, prk);
    iHash, oHash := hmac.iHash, hmac.oHash;
    assert InnerPad(alg, prk) + [] == InnerPad(alg, prk);
  }

  /** The last block into T and behind the others. */
  method FinalBlock(iHash: HashMD, oHash: HashMD, t: array<byte>, okm: array<byte>,
                    ghost prk: seq<byte>, info: seq<byte>, blocks: nat)
    requires Midstates(iHash, oHash, prk) && BuffersApart(iHash, oHash, t, okm) && (okm == t ==> blocks == 1)
    requires 0 < blocks < 256 && t.Length == iHash.alg.outputLen && okm.Length == blocks * t.Length
    requires Progress(iHash.alg, prk, info, blocks - 1, t[..], okm[..])
    requires 2 * iHash.alg.blockLen + |info| + 1 < MAX_MESSAGE
    modifies iHash, iHash.buffer, oHash, oHash.buffer, t, okm
    ensures iHash.Valid() && oHash.Valid() && okm[..] == Blocks(iHash.alg, prk, info, blocks)
  {
    var offset := t.Length * (blocks - 1);
    LastOffset(blocks, t.Length);
    LastBlock(iHash, oHash, t, prk, info, blocks);
    PlaceBlock(iHash.alg, okm, t, offset, prk, info, blocks);
  }

  lemma LastOffset(blocks: nat, olen: nat)
    requires blocks > 0
    ensures olen * (blocks - 1) == (blocks - 1) * olen
    ensures olen * (blocks - 1) + olen == blocks * olen
  {}

  // ---------------------------------------------------------------- HKDF

  /** Section 2 of RFC 5869: extract under the salt, zeros of output length if there is none; then expand. */
  function Hkdf(h: Algorithm, ikm: seq<byte>, salt: Option<seq<byte>>, info: Option<seq<byte>>, length: nat): seq<byte>
    requires ValidAlgorithm(h)
  {
    var prk := Hmac(h, if salt.None? then Zeros(h.outputLen) else salt.value, ikm);
    Okm(h, prk, if info.None? then [] else info.value, length)
  }

  /** The whole derivation, recycling the extract HMAC and its output for the expansion. */
  method Derive(alg: Algorithm, ikm: seq<byte>, salt: Option<seq<byte>>, info: Option<seq<byte>>, length: nat)
    returns (r: Result<array<byte>, HkdfError>)
    requires ValidAlgorithm(alg) && alg.blockLen + |ikm| < MAX_MESSAGE && (salt.Some? ==> |salt.value| < MAX_MESSAGE)
    requires 2 * alg.blockLen + (if info.Some? then |info.value| else 0) + 1 < MAX_MESSAGE
    ensures if length > 255 * alg.outputLen then r == Err(LengthTooLarge)
            else r.Ok? && r.value[..] == Hkdf(alg, ikm, salt, info, length)
    ensures r.Ok? ==>
              var prk := Hmac(alg, if salt.Some? then salt.value else Zeros(alg.outputLen), ikm);
              r.value[..] == Okm(alg, prk, if info.Some? then info.value else [], length)
  {
    var s := if salt.None? then Zeros(alg.outputLen) else salt.value;
    var hmac := new HMAC(alg, s);
    var _ := hmac.Update(ikm);
    assert [] + ikm == ikm;
    var prk := hmac.Digest();
    r := Expand(alg, prk.value, info, length, hmac);
  }
}

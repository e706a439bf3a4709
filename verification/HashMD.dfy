/**
 The streaming block hash of the browser's hashing engine (HashMD in tca/dvf.bundle.js), over an
 arbitrary compression function: however a message is cut into updates, the digest is the one-shot
 hash of the padded message.
 */
module HashMD {
  import opened Wrappers
  import Field

  type byte = bv8

  type Word = x: nat | x < 0x1_0000_0000

  /** A Merkle-Damgard hash with big-endian length and output. Its compression function is left open. */
  datatype Algorithm = Algorithm(
    blockLen: nat, outputLen: nat, padOffset: nat, iv: seq<Word>, compress: (seq<Word>, seq<byte>) -> seq<Word>)

  ghost predicate ValidAlgorithm(h: Algorithm) {
    && 8 <= h.padOffset < h.blockLen
    && h.outputLen % 4 == 0 && h.outputLen / 4 <= |h.iv| && 0 < h.outputLen <= h.blockLen
    && forall st, b :: |h.compress(st, b)| == |st|
  }

  // ---------------------------------------------------------------- the one-shot hash

  /** Compression folded over the full blocks of `data`. */
  function Fold(h: Algorithm, st: seq<Word>, data: seq<byte>): seq<Word>
    requires h.blockLen > 0
    decreases |data|
  {
    if |data| < h.blockLen then st
    else Fold(h, h.compress(st, data[..h.blockLen]), data[h.blockLen..])
  }

  /** What the full blocks leave over. */
  function Rest(h: Algorithm, data: seq<byte>): (r: seq<byte>)
    requires h.blockLen > 0
    ensures |r| < h.blockLen
    decreases |data|
  {
    if |data| < h.blockLen then data else Rest(h, data[h.blockLen..])
  }

  /** `k` bytes of `n`, most significant first. */
  function BigEndian(k: nat, n: nat): (r: seq<byte>)
    ensures |r| == k
  {
    if k == 0 then [] else BigEndian(k - 1, n / 256) + [(n % 256) as byte]
  }

  function Reversed(b: seq<byte>): (r: seq<byte>)
    ensures |r| == |b|
  {
    seq(|b|, i requires 0 <= i < |b| => b[|b| - 1 - i])
  }

  /** `k` bytes of `n` in either byte order. */
  function Bytes(k: nat, n: nat, isLE: bool): (r: seq<byte>)
    ensures |r| == k
  {
    if isLE then Reversed(BigEndian(k, n)) else BigEndian(k, n)
  }

  lemma ReversedConcat(a: seq<byte>, b: seq<byte>)
    ensures Reversed(a + b) == Reversed(b) + Reversed(a)
  {}

  function Zeros(k: nat): (r: seq<byte>)
    ensures |r| == k
  {
    seq(k, _ => 0)
  }

  /** The number of zero bytes: the least that makes marker, zeros and length field fill up the last block. */
  function ZeroCount(h: Algorithm, n: nat): nat
    requires h.blockLen > 0
  {
    ToMultiple(h.blockLen, n + 1 + h.padOffset)
  }

  /** How far `n` is from the next multiple of `m`. */
  function ToMultiple(m: nat, n: nat): nat
    requires m > 0
  {
    (m - n % m) % m
  }

  /** Section 5.1.2 of FIPS 180-4: a one bit, zeros, and the bit length in `padOffset` bytes. */
  function Padding(h: Algorithm, n: nat): seq<byte>
    requires h.blockLen > 0
  {
    [0x80] + Zeros(ZeroCount(h, n)) + BigEndian(h.padOffset, 8 * n)
  }

  /** The first `k` words of a state as bytes. */
  function Output(st: seq<Word>, k: nat): (r: seq<byte>)
    requires k <= |st|
    ensures |r| == 4 * k
  {
    if k == 0 then [] else Output(st, k - 1) + BigEndian(4, st[k - 1])
  }

  /** The hash of a message as the standard defines it. */
  function Hash(h: Algorithm, msg: seq<byte>): (r: seq<byte>)
    requires ValidAlgorithm(h)
    ensures |r| == h.outputLen
  {
    FoldLength(h, h.iv, msg + Padding(h, |msg|));
    Output(Fold(h, h.iv, msg + Padding(h, |msg|)), h.outputLen / 4)
  }

  lemma {:induction false} FoldLength(h: Algorithm, st: seq<Word>, data: seq<byte>)
    requires ValidAlgorithm(h)
    ensures |Fold(h, st, data)| == |st|
    decreases |data|
  {
    if |data| >= h.blockLen {
      FoldLength(h, h.compress(st, data[..h.blockLen]), data[h.blockLen..]);
    }
  }

  /** The hash written out: the fold over message and padding, cut to the output length. */
  lemma HashWrittenOut(h: Algorithm, msg: seq<byte>)
    requires ValidAlgorithm(h)
    ensures |Fold(h, h.iv, msg + Padding(h, |msg|))| == |h.iv|
    ensures Hash(h, msg) == Output(Fold(h, h.iv, msg + Padding(h, |msg|)), h.outputLen / 4)
  {
    FoldLength(h, h.iv, msg + Padding(h, |msg|));
  }

  /** Each word of the state stands in its own four bytes of the output. */
  lemma {:induction false} OutputWords(st: seq<Word>, k: nat, i: nat)
    requires i < k <= |st|
    ensures Output(st, k)[4 * i..4 * i + 4] == BigEndian(4, st[i])
  {
    if i < k - 1 {
      OutputWords(st, k - 1, i);
      assert Output(st, k)[4 * i..4 * i + 4] == Output(st, k - 1)[4 * i..4 * i + 4];
    }
  }

  /** The number a byte string stands for, most significant byte first. */
  function Number(b: seq<byte>): nat {
    if b == [] then 0 else 256 * Number(b[..|b| - 1]) + b[|b| - 1] as int
  }

  /** A number that fits is read back from its bytes. */
  lemma {:induction false} NumberOfBytes(k: nat, n: nat)
    requires n < Pow256(k)
    ensures Number(BigEndian(k, n)) == n
  {
    if k > 0 {
      var q := n / 256;
      NumberOfBytes(k - 1, q);
      LowBytes(k, n, q);
      NumberOneMore(BigEndian(k - 1, q), Byte(n));
      ByteValue(n);
    }
  }

  lemma NumberOneMore(front: seq<byte>, b: byte)
    ensures Number(front + [b]) == 256 * Number(front) + b as int
  {
    assert (front + [b])[..|front|] == front;
  }

  lemma ByteValue(n: nat)
    ensures n == 256 * (n / 256) + Byte(n) as int
  {
    ByteFits(n % 256);
  }

  lemma ByteFits(r: nat)
    requires r < 256
    ensures (r as byte) as int == r
  {
    var b := ByteOf(r);
    BackToByte(b);
  }

  /** Counting up from zero reaches the byte for every number below 256. */
  lemma {:induction false} ByteOf(r: nat) returns (b: byte)
    requires r < 256
    ensures b as int == r
  {
    if r == 0 {
      b := 0;
    } else {
      var a := ByteOf(r - 1);
      NotLast(a, r);
      Successor(a);
      b := a + 1;
    }
  }

  lemma NotLast(a: byte, r: nat)
    requires a as int + 1 == r < 256
    ensures a < 255
  {}

  lemma Successor(b: byte)
    requires b < 255
    ensures (b + 1) as int == b as int + 1
  {}

  lemma BackToByte(b: byte)
    ensures (b as int) as byte == b
  {}

  // ---------------------------------------------------------------- folding in pieces

  /** Folding resumes from the state and the remainder. */
  lemma {:induction false} FoldResumes(h: Algorithm, st: seq<Word>, a: seq<byte>, b: seq<byte>)
    requires h.blockLen > 0
    ensures Fold(h, st, a + b) == Fold(h, Fold(h, st, a), Rest(h, a) + b)
    ensures Rest(h, a + b) == Rest(h, Rest(h, a) + b)
    decreases |a|
  {
    if |a| >= h.blockLen {
      var n := h.blockLen;
      assert (a + b)[..n] == a[..n] && (a + b)[n..] == a[n..] + b;
      FoldResumes(h, h.compress(st, a[..n]), a[n..], b);
    }
  }

  /** A piece that fits into the current block is remembered, or completes the block. */
  lemma FoldPiece(h: Algorithm, st: seq<Word>, a: seq<byte>, b: seq<byte>)
    requires h.blockLen > 0 && |Rest(h, a)| + |b| <= h.blockLen
    ensures if |Rest(h, a)| + |b| < h.blockLen then
              Fold(h, st, a + b) == Fold(h, st, a) && Rest(h, a + b) == Rest(h, a) + b
            else
              Fold(h, st, a + b) == h.compress(Fold(h, st, a), Rest(h, a) + b) && Rest(h, a + b) == []
  {
    FoldResumes(h, st, a, b);
    var block := Rest(h, a) + b;
    if |block| == h.blockLen {
      assert block[..h.blockLen] == block && block[h.blockLen..] == [];
    }
  }

  /** The full blocks and the remainder make up the length. */
  lemma {:induction false} RestLength(h: Algorithm, data: seq<byte>) returns (blocks: nat)
    requires h.blockLen > 0
    ensures |data| == |Rest(h, data)| + blocks * h.blockLen
    decreases |data|
  {
    if |data| < h.blockLen {
      blocks := 0;
    } else {
      var more := RestLength(h, data[h.blockLen..]);
      blocks := more + 1;
      assert blocks * h.blockLen == more * h.blockLen + h.blockLen;
    }
  }

  lemma SmallModulo(n: nat, m: nat)
    requires n < m
    ensures n % m == n
  {}

  /** How many zeros that is, given the length of the remainder. */
  lemma ZeroCountFromRest(h: Algorithm, data: seq<byte>)
    requires ValidAlgorithm(h)
    ensures var r := |Rest(h, data)|;
            ZeroCount(h, |data|)
            == if r + 1 + h.padOffset <= h.blockLen then h.blockLen - (r + 1 + h.padOffset)
               else 2 * h.blockLen - (r + 1 + h.padOffset)
  {
    var k := RestLength(h, data);
    var B, c, r := h.blockLen, 1 + h.padOffset, |Rest(h, data)|;
    SameDistance(B, |data| + c, r + c, k);
    UpToNextMultiple(B, r + c);
  }

  lemma SameDistance(m: nat, a: nat, b: nat, k: int)
    requires m > 0 && a == b + k * m
    ensures ToMultiple(m, a) == ToMultiple(m, b)
  {
    Field.SameResidue(a, b, m, k);
  }

  lemma UpToNextMultiple(m: nat, s: nat)
    requires 0 < s < 2 * m
    ensures ToMultiple(m, s) == if s <= m then m - s else 2 * m - s
  {
    if s < m {
      SmallModulo(s, m);
      SmallModulo(m - s, m);
    } else if s == m {
      Field.SameResidue(m, 0, m, 1);
      SmallModulo(0, m);
      assert s % m == 0;
    } else {
      Field.SameResidue(s, s - m, m, 1);
      SmallModulo(s - m, m);
      SmallModulo(2 * m - s, m);
    }
  }

  /** The zero count is the least that fills the last block, as the standard asks. */
  lemma ZeroCountIsLeast(h: Algorithm, n: nat, z: nat)
    requires h.blockLen > 0
    ensures (n + 1 + ZeroCount(h, n) + h.padOffset) % h.blockLen == 0
    ensures (n + 1 + z + h.padOffset) % h.blockLen == 0 ==> ZeroCount(h, n) <= z
  {
    var m, c := h.blockLen, n + 1 + h.padOffset;
    var r, t := c % m, ZeroCount(h, n);
    assert c == m * (c / m) + r;
    if r == 0 {
      Field.SameResidue(m, 0, m, 1);
    } else {
      SmallModulo(m - r, m);
    }
    Field.SameResidue(c + t, r + t, m, c / m);
    Field.SameResidue(c + z, r + z, m, c / m);
    if r + t == m {
      Field.SameResidue(m, 0, m, 1);
    }
    SmallModulo(0, m);
    if z < t {
      SmallModulo(r + z, m);
    }
  }

  // ---------------------------------------------------------------- the length field

  /** The two 32-bit words the engine writes make up the eight low bytes of a number. */
  lemma TwoWords(n: nat)
    ensures BigEndian(4, (n / 0x1_0000_0000) % 0x1_0000_0000) + BigEndian(4, n % 0x1_0000_0000) == BigEndian(8, n)
  {
    FourBytes(n % 0x1_0000_0000);
    FourBytes((n / 0x1_0000_0000) % 0x1_0000_0000);
    EightBytes(n);
    ByteOfWord(n);
    ByteOfWord(n / 0x1_0000_0000);
  }

  lemma TwoWordsEither(n: nat, isLE: bool)
    ensures var h, l := (n / 0x1_0000_0000) % 0x1_0000_0000, n % 0x1_0000_0000;
            Bytes(4, if isLE then l else h, isLE) + Bytes(4, if isLE then h else l, isLE) == Bytes(8, n, isLE)
  {
    var h, l := (n / 0x1_0000_0000) % 0x1_0000_0000, n % 0x1_0000_0000;
    TwoWords(n);
    ReversedConcat(BigEndian(4, h), BigEndian(4, l));
  }

  lemma FourBytes(n: nat)
    ensures BigEndian(4, n) == [Byte(n / 0x100_0000), Byte(n / 0x1_0000), Byte(n / 0x100), Byte(n)]
  {
    var n1, n2, n3 := n / 0x100, n / 0x1_0000, n / 0x100_0000;
    DivideTwice(n);
    LowBytes(1, n3, n3 / 256);
    LowBytes(2, n2, n3);
    LowBytes(3, n1, n2);
    LowBytes(4, n, n1);
  }

  lemma DivideTwice(n: nat)
    ensures n / 0x100 / 256 == n / 0x1_0000 && n / 0x1_0000 / 256 == n / 0x100_0000
  {}

  lemma DivideOnce(n: nat)
    ensures n / 0x100_0000 / 256 == n / 0x1_0000_0000
  {}

  lemma LowBytes(k: nat, n: nat, m: nat)
    requires k > 0 && m == n / 256
    ensures BigEndian(k, n) == BigEndian(k - 1, m) + [Byte(n)]
  {}

  function Byte(n: nat): byte { (n % 256) as byte }

  lemma EightBytes(n: nat)
    ensures BigEndian(8, n) == BigEndian(4, n / 0x1_0000_0000) + BigEndian(4, n)
  {
    var n1, n2, n3, n4 := n / 0x100, n / 0x1_0000, n / 0x100_0000, n / 0x1_0000_0000;
    DivideTwice(n);
    DivideOnce(n);
    LowBytes(5, n3, n4);
    LowBytes(6, n2, n3);
    LowBytes(7, n1, n2);
    LowBytes(8, n, n1);
    FourBytes(n);
    FourMore(BigEndian(4, n4), Byte(n3), Byte(n2), Byte(n1), Byte(n));
  }

  lemma FourMore(bs: seq<byte>, b3: byte, b2: byte, b1: byte, b0: byte)
    ensures bs + [b3] + [b2] + [b1] + [b0] == bs + [b3, b2, b1, b0]
  {}

  /** Reducing to 32 bits does not change the four low bytes. */
  lemma ByteOfWord(n: nat)
    ensures BigEndian(4, n % 0x1_0000_0000) == BigEndian(4, n)
  {
    FourBytes(n);
    FourBytes(n % 0x1_0000_0000);
    var q, r := n / 0x1_0000_0000, n % 0x1_0000_0000;
    SameByte(n / 0x100_0000, r / 0x100_0000, q);
    SameByte(n / 0x1_0000, r / 0x1_0000, 0x100 * q);
    SameByte(n / 0x100, r / 0x100, 0x1_0000 * q);
    SameByte(n, r, 0x100_0000 * q);
  }

  lemma SameByte(a: nat, b: nat, k: nat)
    requires a == b + 256 * k
    ensures Byte(a) == Byte(b)
  {
    SameLowByte(a, b, k);
  }

  lemma SameLowByte(a: int, b: int, k: int)
    requires a == b + 256 * k
    ensures a % 256 == b % 256
  {}

  lemma {:induction false} BigEndianOfZero(k: nat)
    ensures BigEndian(k, 0) == Zeros(k)
  {
    if k > 0 {
      BigEndianOfZero(k - 1);
      assert Zeros(k) == Zeros(k - 1) + [0];
    }
  }

  function Pow256(k: nat): nat {
    if k == 0 then 1 else 256 * Pow256(k - 1)
  }

  /** A number that fits `j` bytes leaves the other bytes of a wider field zero. */
  lemma {:induction false} HighBytesZero(k: nat, j: nat, n: nat)
    requires n < Pow256(j)
    ensures BigEndian(k + j, n) == Zeros(k) + BigEndian(j, n)
  {
    if j == 0 {
      BigEndianOfZero(k);
    } else {
      HighBytesZero(k, j - 1, n / 256);
    }
  }

  lemma EightBytesHold(n: nat)
    requires n < 0x1_0000_0000_0000_0000
    ensures n < Pow256(8)
  {
    assert Pow256(4) == 0x1_0000_0000;
  }

  // ---------------------------------------------------------------- the class

  datatype HashError = Destroyed | AlreadyFinished | OutputTooShort

  /** The length field is exact as long as the bit length is a safe integer. */
  const MAX_MESSAGE := 0x4_0000_0000_0000

  class HashMD {
    const alg: Algorithm
    const buffer: array<byte>
    var state: seq<Word>
    var length: nat
    var pos: nat
    var finished: bool
    var destroyed: bool
    /** Everything hashed since creation. */
    ghost var msg: seq<byte>

    ghost predicate Valid()
      reads this
    {
      ValidAlgorithm(alg) && buffer.Length == alg.blockLen && |state| == |alg.iv|
    }

    /** The state is the fold over the full blocks, the buffer holds the remainder. */
    ghost predicate Streaming()
      reads this, buffer
    {
      && Valid()
      && state == Fold(alg, alg.iv, msg)
      && pos == |Rest(alg, msg)| && buffer[..pos] == Rest(alg, msg)
    }

    /** An instance that still accepts data. */
    ghost predicate Live()
      reads this, buffer
    {
      Streaming() && !finished && !destroyed && length == |msg|
    }

    constructor (alg: Algorithm)
      requires ValidAlgorithm(alg)
      ensures Live() && this.alg == alg && msg == [] && fresh(buffer)
    {
      this.alg := alg;
      buffer := new byte[alg.blockLen](_ => 0);
      state := alg.iv;
      length, pos, finished, destroyed := 0, 0, false, false;
      msg := [];
    }

    method Process(block: seq<byte>)
      requires Valid()
      modifies `state
      ensures Valid() && state == alg.compress(old(state), block)
    {
      state := alg.compress(state, block);
    }

    method Update(data: seq<byte>) returns (r: Result<(), HashError>)
      requires Valid() && (!finished && !destroyed ==> Live())
      modifies this, buffer
      ensures Valid()
      ensures old(destroyed) ==> r == Err(Destroyed) && unchanged(this) && unchanged(buffer)
      ensures !old(destroyed) && old(finished) ==> r == Err(AlreadyFinished) && unchanged(this) && unchanged(buffer)
      ensures !old(destroyed) && !old(finished) ==> r == Ok(()) && Live() && msg == old(msg) + data
    {
      if destroyed { return Err(Destroyed); }
      if finished { return Err(AlreadyFinished); }
      var len := |data|;
      ghost var before := msg;
      var p := 0;
      assert before + data[..0] == before;
      while p < len
        invariant 0 <= p <= len && Streaming() && !finished && !destroyed
        invariant length == old(length) && msg == before + data[..p]
      {
        ghost var q := p;
        var take := if alg.blockLen - pos <= len - p then alg.blockLen - pos else len - p;
        if take == alg.blockLen {
          p := ProcessBlocks(data, p);
        } else {
          Absorb(data[p..p + take]);
          p := p + take;
        }
        SliceExtends(before, data, 0, q, p);
      }
      length := length + len;
      assert data[..len] == data;
      return Ok(());
    }

    /** Processes the full blocks of `data` from position `p0` on straight from there, without buffering. */
    method ProcessBlocks(data: seq<byte>, p0: nat) returns (p: nat)
      requires Streaming() && p0 + alg.blockLen <= |data| && pos == 0
      modifies `state, `msg
      ensures Streaming() && p0 < p <= |data| && msg == old(msg) + data[p0..p]
    {
      p := p0;
      ghost var before := msg;
      while alg.blockLen <= |data| - p
        invariant p0 <= p <= |data| && Streaming() && msg == before + data[p0..p]
        invariant p == p0 ==> alg.blockLen <= |data| - p
        decreases |data| - p
      {
        SliceExtends(before, data, p0, p, p + alg.blockLen);
        ProcessOne(data[p..p + alg.blockLen]);
        p := p + alg.blockLen;
      }
    }

    method ProcessOne(block: seq<byte>)
      requires Streaming() && pos == 0 && |block| == alg.blockLen
      modifies `state, `msg
      ensures Streaming() && msg == old(msg) + block
    {
      FoldPiece(alg, alg.iv, msg, block);
      assert Rest(alg, msg) + block == block;
      Process(block);
      msg := msg + block;
    }

    /** Copies a piece into the buffer behind what is there, and processes the buffer when it is full. */
    method Absorb(piece: seq<byte>)
      requires Streaming()
      requires pos + |piece| <= alg.blockLen
      modifies `state, `pos, `msg, buffer
      ensures Streaming() && msg == old(msg) + piece
    {
      FoldPiece(alg, alg.iv, msg, piece);
      ghost var rest := buffer[..pos];
      forall i | 0 <= i < |piece| {
        buffer[pos + i] := piece[i];
      }
      assert buffer[..pos + |piece|] == rest + piece;
      msg := msg + piece;
      pos := pos + |piece|;
      if pos == alg.blockLen {
        assert buffer[..] == rest + piece;
        Process(buffer[..]);
        pos := 0;
      }
    }

    /** Pads in place, processes one or two final blocks and writes the digest over the front of `out`. */
    method DigestInto(out: array<byte>) returns (r: Result<(), HashError>)
      requires Valid() && (!finished && !destroyed ==> Live() && length < MAX_MESSAGE)
      modifies this, buffer, out
      ensures Valid()
      ensures old(destroyed) ==> r == Err(Destroyed)
      ensures !old(destroyed) && old(finished) ==> r == Err(AlreadyFinished)
      ensures !old(destroyed) && !old(finished) && out.Length < alg.outputLen ==> r == Err(OutputTooShort)
      ensures r.Err? ==> unchanged(this) && unchanged(buffer) && unchanged(out)
      ensures !old(destroyed) && !old(finished) && out.Length >= alg.outputLen ==>
                && r == Ok(()) && finished && !destroyed
                && out[..alg.outputLen] == Hash(alg, old(msg))
                && (out != buffer ==> out[alg.outputLen..] == old(out[alg.outputLen..]))
    {
      if destroyed { return Err(Destroyed); }
      if finished { return Err(AlreadyFinished); }
      if out.Length < alg.outputLen { return Err(OutputTooShort); }
      finished := true;
      ghost var tail := out[alg.outputLen..];
      Finish();
      assert out != buffer ==> out[alg.outputLen..] == tail;
      WriteState(out);
      return Ok(());
    }

    method Finish()
      requires Valid() && length == |msg| < MAX_MESSAGE
      requires Streaming()
      modifies `state, buffer
      ensures Valid() && state == Fold(alg, alg.iv, msg + Padding(alg, |msg|))
    {
      PaddedBlocks(alg, state, Rest(alg, msg), msg);
      FoldResumes(alg, alg.iv, msg, Padding(alg, |msg|));
      var free := PutMarker();
      if alg.padOffset > free {
        Process(buffer[..]);
        Fill(0);
        assert buffer[..] == Zeros(alg.blockLen);
      }
      ProcessWithLength(8 * length);
    }

    /** Overwrites the end of the buffer with the bit length and processes it. */
    method ProcessWithLength(bits: nat)
      requires Valid()
      modifies `state, buffer
      ensures Valid()
      ensures state == alg.compress(old(state), old(buffer[..alg.blockLen - 8]) + BigEndian(8, bits))
    {
      ghost var front := buffer[..alg.blockLen - 8];
      SetU64(alg.blockLen - 8, bits, false);
      assert buffer[..] == front + BigEndian(8, bits);
      Process(buffer[..]);
    }

    /** Puts the marker behind the remainder and zeros behind the marker; returns how many. */
    method PutMarker() returns (free: nat)
      requires Valid() && pos < alg.blockLen
      modifies buffer
      ensures free == alg.blockLen - pos - 1
      ensures buffer[..] == old(buffer[..pos]) + [0x80] + Zeros(free)
    {
      buffer[pos] := 0x80;
      Fill(pos + 1);
      free := alg.blockLen - (pos + 1);
    }

    /** Zeroes the buffer from position `p` on. */
    method Fill(p: nat)
      requires p <= buffer.Length
      modifies buffer
      ensures buffer[..] == old(buffer[..p]) + Zeros(buffer.Length - p)
    {
      forall i | p <= i < buffer.Length {
        buffer[i] := 0;
      }
    }

    /** The eight bytes of a number in either byte order, as two 32-bit words. */
    method SetU64(offset: nat, n: nat, isLE: bool)
      requires Valid() && offset + 8 <= buffer.Length
      modifies buffer
      ensures buffer[..] == old(buffer[..offset]) + Bytes(8, n, isLE) + old(buffer[offset + 8..])
    {
      var h, l := (n / 0x1_0000_0000) % 0x1_0000_0000, n % 0x1_0000_0000;
      var bytes := Bytes(4, if isLE then l else h, isLE) + Bytes(4, if isLE then h else l, isLE);
      TwoWordsEither(n, isLE);
      forall i | 0 <= i < 8 {
        buffer[offset + i] := bytes[i];
      }
    }

    method WriteState(out: array<byte>)
      requires Valid() && out.Length >= alg.outputLen
      modifies out
      ensures out[..alg.outputLen] == Output(state, alg.outputLen / 4)
      ensures out[alg.outputLen..] == old(out[alg.outputLen..])
    {
      var outLen := alg.outputLen / 4;
      for i := 0 to outLen
        invariant out[..4 * i] == Output(state, i)
        invariant out[alg.outputLen..] == old(out[alg.outputLen..])
      {
        var bytes := BigEndian(4, state[i]);
        ghost var front := out[..4 * i];
        forall j | 0 <= j < 4 {
          out[4 * i + j] := bytes[j];
        }
        assert out[..4 * (i + 1)] == front + bytes;
      }
    }

    method Digest() returns (r: Result<array<byte>, HashError>)
      requires Valid() && (!finished && !destroyed ==> Live() && length < MAX_MESSAGE)
      modifies this, buffer
      ensures Valid()
      ensures old(destroyed) ==> r == Err(Destroyed)
      ensures !old(destroyed) && old(finished) ==> r == Err(AlreadyFinished)
      ensures !old(destroyed) && !old(finished) ==>
                r.Ok? && fresh(r.value) && r.value[..] == Hash(alg, old(msg)) && destroyed
    {
      var done := DigestInto(buffer);
      if done.Err? { return Err(done.error); }
      var res := new byte[alg.outputLen](i requires 0 <= i < alg.outputLen <= buffer.Length reads buffer => buffer[i]);
      assert res[..] == buffer[..alg.outputLen];
      Destroy();
      return Ok(res);
    }

    method Destroy()
      requires Valid()
      modifies this, buffer
      ensures Valid() && destroyed && finished == old(finished)
    {
      destroyed := true;
      forall i | 0 <= i < buffer.Length {
        buffer[i] := 0;
      }
      state := seq(|state|, _ => 0);
    }

    /**
     Overwrites another instance with the state of this one, whatever that is; the buffer is copied only
     if it holds something. The clone of an instance that accepts data accepts it just so.
     */
    method CloneInto(to: HashMD)
      requires Valid() && to.Valid() && to != this && to.buffer != buffer && to.alg == alg
      modifies to, to.buffer
      ensures to.Valid() && (to.state, to.length, to.pos, to.finished, to.destroyed, to.msg)
                         == (state, length, pos, finished, destroyed, msg)
      ensures to.buffer[..] == if pos != 0 then buffer[..] else old(to.buffer[..])
      ensures Live() ==> to.Live()
    {
      to.state := state;
      to.destroyed := destroyed;
      to.finished := finished;
      to.length := length;
      to.pos := pos;
      to.msg := msg;
      if pos != 0 {
        forall i | 0 <= i < buffer.Length {
          to.buffer[i] := buffer[i];
        }
        assert to.buffer[..] == buffer[..];
      }
    }
  }

  /** The final blocks, built in place, are the padded remainder. */
  lemma PaddedBlocks(h: Algorithm, st: seq<Word>, rest: seq<byte>, msg: seq<byte>)
    requires ValidAlgorithm(h) && rest == Rest(h, msg) && |msg| < MAX_MESSAGE
    ensures var B, free := h.blockLen, h.blockLen - |rest| - 1;
            var length := BigEndian(8, 8 * |msg|);
            var first := rest + [0x80] + Zeros(free);
            Fold(h, st, rest + Padding(h, |msg|))
            == if h.padOffset > free then h.compress(h.compress(st, first), Zeros(B)[..B - 8] + length)
               else h.compress(st, first[..B - 8] + length)
  {
    var B, free, n := h.blockLen, h.blockLen - |rest| - 1, 8 * |msg|;
    var length := BigEndian(8, n);
    var first := rest + [0x80] + Zeros(free);
    ZeroCountFromRest(h, msg);
    var z := ZeroCount(h, |msg|) + h.padOffset - 8;
    PaddingSpelledOut(h, |msg|, z);
    if h.padOffset > free {
      var last := Zeros(B)[..B - 8] + length;
      PadsTwoBlocks(rest, z, length, B);
      FoldBlock(h, st, first, last);
      FoldOne(h, h.compress(st, first), last);
    } else {
      PadsOneBlock(rest, z, length, B);
      FoldOne(h, st, first[..B - 8] + length);
    }
  }

  lemma PadsOneBlock(rest: seq<byte>, z: nat, length: seq<byte>, B: nat)
    requires |length| == 8 && |rest| + 1 + z + 8 == B
    ensures rest + ([0x80] + Zeros(z) + length) == (rest + [0x80] + Zeros(B - |rest| - 1))[..B - 8] + length
  {}

  lemma PadsTwoBlocks(rest: seq<byte>, z: nat, length: seq<byte>, B: nat)
    requires |length| == 8 && |rest| < B && B >= 8 && |rest| + 1 + z + 8 == 2 * B
    ensures rest + ([0x80] + Zeros(z) + length)
         == (rest + [0x80] + Zeros(B - |rest| - 1)) + (Zeros(B)[..B - 8] + length)
  {}

  lemma FoldOne(h: Algorithm, st: seq<Word>, block: seq<byte>)
    requires h.blockLen > 0 && |block| == h.blockLen
    ensures Fold(h, st, block) == h.compress(st, block)
  {
    FoldBlock(h, st, block, []);
    assert block + [] == block;
  }

  /** The high bytes of the length field are more zeros. */
  lemma PaddingSpelledOut(h: Algorithm, len: nat, z: nat)
    requires ValidAlgorithm(h) && len < MAX_MESSAGE && z == ZeroCount(h, len) + h.padOffset - 8
    ensures Padding(h, len) == [0x80] + Zeros(z) + BigEndian(8, 8 * len)
  {
    EightBytesHold(8 * len);
    HighBytesZero(h.padOffset - 8, 8, 8 * len);
    assert Zeros(ZeroCount(h, len)) + Zeros(h.padOffset - 8) == Zeros(z);
  }

  lemma SliceExtends(before: seq<byte>, data: seq<byte>, i: nat, j: nat, k: nat)
    requires i <= j <= k <= |data|
    ensures (before + data[i..j]) + data[j..k] == before + data[i..k]
  {}

  lemma FoldBlock(h: Algorithm, st: seq<Word>, block: seq<byte>, more: seq<byte>)
    requires h.blockLen > 0 && |block| == h.blockLen
    ensures Fold(h, st, block + more) == Fold(h, h.compress(st, block), more)
  {
    assert (block + more)[..h.blockLen] == block && (block + more)[h.blockLen..] == more;
  }

  // ---------------------------------------------------------------- what a digest binds

  /** The padding written out: marker, zeros, and the bit length at the end of the last block. */
  lemma PaddingWrittenOut(h: Algorithm, n: nat)
    requires ValidAlgorithm(h)
    ensures var p := Padding(h, n);
            && |p| == 1 + ZeroCount(h, n) + h.padOffset && p[0] == 0x80
            && (forall i | 1 <= i < |p| - h.padOffset :: p[i] == 0)
            && p[|p| - h.padOffset..] == BigEndian(h.padOffset, 8 * n)
            && (n + |p|) % h.blockLen == 0
  {
    ZeroCountIsLeast(h, n, 0);
  }

  lemma WholeBlocks(len: nat, B: nat) returns (blocks: nat)
    requires B > 0 && len > 0 && len % B == 0
    ensures blocks > 0 && len == blocks * B
  {
    blocks := len / B;
    NotNone(len, blocks, B);
  }

  lemma NotNone(len: nat, blocks: int, B: nat)
    requires len > 0 && len == B * blocks
    ensures blocks > 0 && len == blocks * B
  {}

  /** Two different inputs of the compression function with one result. */
  ghost predicate Collides(h: Algorithm) {
    exists st: seq<Word>, block: seq<byte>, st': seq<Word>, block': seq<byte> ::
      && (st, block) != (st', block') && |block| == |block'| == h.blockLen
      && h.compress(st, block) == h.compress(st', block')
  }

  lemma CollisionFound(h: Algorithm, st: seq<Word>, block: seq<byte>, st': seq<Word>, block': seq<byte>)
    requires (st, block) != (st', block') && |block| == |block'| == h.blockLen
    requires h.compress(st, block) == h.compress(st', block')
    ensures Collides(h)
  {}

  /** Different data of one length fold to one state only through a collision. */
  lemma {:induction false} EqualFolds(h: Algorithm, blocks: nat, st: seq<Word>, a: seq<byte>,
                                      st': seq<Word>, b: seq<byte>)
    requires h.blockLen > 0 && |a| == |b| == blocks * h.blockLen && (st, a) != (st', b)
    requires Fold(h, st, a) == Fold(h, st', b)
    ensures Collides(h)
  {
    if blocks > 0 {
      var B := h.blockLen;
      OneBlockLess(blocks, B);
      var a0, a1, b0, b1 := a[..B], a[B..], b[..B], b[B..];
      assert a == a0 + a1 && b == b0 + b1;
      if h.compress(st, a0) == h.compress(st', b0) && a1 == b1 {
        CollisionFound(h, st, a0, st', b0);
      } else {
        EqualFolds(h, blocks - 1, h.compress(st, a0), a1, h.compress(st', b0), b1);
      }
    }
  }

  lemma OneBlockLess(blocks: nat, B: nat)
    requires blocks > 0
    ensures blocks * B - B == (blocks - 1) * B && blocks * B >= B
  {
    assert (blocks - 1) * B >= 0;
  }

  /** Folding whole blocks ends with the compression of the last one. */
  lemma {:induction false} FoldLast(h: Algorithm, blocks: nat, st: seq<Word>, front: seq<byte>, last: seq<byte>)
    requires h.blockLen > 0 && |front| == blocks * h.blockLen && |last| == h.blockLen
    ensures Fold(h, st, front + last) == h.compress(Fold(h, st, front), last)
  {
    if blocks == 0 {
      assert front + last == last;
      FoldOne(h, st, last);
    } else {
      var B := h.blockLen;
      OneBlockLess(blocks, B);
      assert (front + last)[..B] == front[..B] && (front + last)[B..] == front[B..] + last;
      FoldLast(h, blocks - 1, h.compress(st, front[..B]), front[B..], last);
    }
  }

  /** The last block of a padded message ends with its length. */
  lemma LastBlock(h: Algorithm, msg: seq<byte>) returns (blocks: nat, front: seq<byte>, last: seq<byte>)
    requires ValidAlgorithm(h)
    ensures |front| == blocks * h.blockLen && |last| == h.blockLen && msg + Padding(h, |msg|) == front + last
    ensures last[h.blockLen - h.padOffset..] == BigEndian(h.padOffset, 8 * |msg|)
  {
    PaddingWrittenOut(h, |msg|);
    var whole, B := msg + Padding(h, |msg|), h.blockLen;
    var n := WholeBlocks(|whole|, B);
    OneBlockLess(n, B);
    blocks, front, last := n - 1, whole[..|whole| - B], whole[|whole| - B..];
    SameEnd(msg, Padding(h, |msg|), B, h.padOffset);
  }

  lemma SameEnd(a: seq<byte>, b: seq<byte>, k: nat, j: nat)
    requires j <= k <= |a + b| && j <= |b|
    ensures (a + b)[|a + b| - k..][k - j..] == b[|b| - j..]
  {}

  /**
   The Merkle-Damgard theorem: two different messages reach one final state only through a collision of
   the compression function, as messages of different lengths differ in their last block.
   */
  lemma EqualStatesCollide(h: Algorithm, m: seq<byte>, m': seq<byte>)
    requires ValidAlgorithm(h) && |m| < MAX_MESSAGE && |m'| < MAX_MESSAGE && m != m'
    requires Fold(h, h.iv, m + Padding(h, |m|)) == Fold(h, h.iv, m' + Padding(h, |m'|))
    ensures Collides(h)
  {
    var n, front, last := LastBlock(h, m);
    var n', front', last' := LastBlock(h, m');
    if |m| == |m'| {
      var whole, whole' := m + Padding(h, |m|), m' + Padding(h, |m|);
      assert whole[..|m|] == m && whole'[..|m|] == m';
      OneBlockLess(n + 1, h.blockLen);
      EqualFolds(h, n + 1, h.iv, whole, h.iv, whole');
    } else {
      FoldLast(h, n, h.iv, front, last);
      FoldLast(h, n', h.iv, front', last');
      LengthsDiffer(h, |m|, |m'|);
      CollisionFound(h, Fold(h, h.iv, front), last, Fold(h, h.iv, front'), last');
    }
  }

  lemma LengthsDiffer(h: Algorithm, n: nat, n': nat)
    requires ValidAlgorithm(h) && n < MAX_MESSAGE && n' < MAX_MESSAGE && n != n'
    ensures BigEndian(h.padOffset, 8 * n) != BigEndian(h.padOffset, 8 * n')
  {
    EightBytesHold(8 * n);
    EightBytesHold(8 * n');
    Pow256Monotone(8, h.padOffset);
    NumberOfBytes(h.padOffset, 8 * n);
    NumberOfBytes(h.padOffset, 8 * n');
  }

  lemma {:induction false} Pow256Monotone(j: nat, k: nat)
    requires j <= k
    ensures Pow256(j) <= Pow256(k)
  {
    if j < k {
      Pow256Monotone(j, k - 1);
    }
  }

  /** With the whole state as output, equal digests of different messages mean a collision. */
  lemma EqualDigestsCollide(h: Algorithm, m: seq<byte>, m': seq<byte>)
    requires ValidAlgorithm(h) && h.outputLen == 4 * |h.iv|
    requires |m| < MAX_MESSAGE && |m'| < MAX_MESSAGE && m != m' && Hash(h, m) == Hash(h, m')
    ensures Collides(h)
  {
    HashWrittenOut(h, m);
    HashWrittenOut(h, m');
    OutputInjective(Fold(h, h.iv, m + Padding(h, |m|)), Fold(h, h.iv, m' + Padding(h, |m'|)));
    EqualStatesCollide(h, m, m');
  }

  lemma OutputInjective(st: seq<Word>, st': seq<Word>)
    requires |st| == |st'| && Output(st, |st|) == Output(st', |st|)
    ensures st == st'
  {
    assert Pow256(4) == 0x1_0000_0000;
    forall i | 0 <= i < |st|
      ensures st[i] == st'[i]
    {
      OutputWords(st, |st|, i);
      OutputWords(st', |st|, i);
      NumberOfBytes(4, st[i]);
      NumberOfBytes(4, st'[i]);
    }
  }

  // ---------------------------------------------------------------- whole messages

  function Concat(pieces: seq<seq<byte>>): seq<byte> {
    if pieces == [] then [] else Concat(pieces[..|pieces| - 1]) + pieces[|pieces| - 1]
  }

  /**
   However a message is cut into pieces, feeding them one after the other and asking for the digest
   yields the one-shot hash of the whole.
   */
  method HashInPieces(alg: Algorithm, pieces: seq<seq<byte>>) returns (digest: array<byte>)
    requires ValidAlgorithm(alg) && |Concat(pieces)| < MAX_MESSAGE
    ensures digest[..] == Hash(alg, Concat(pieces))
  {
    var hash := new HashMD(alg);
    for i := 0 to |pieces|
      invariant hash.Live() && hash.alg == alg && fresh(hash) && fresh(hash.buffer)
      invariant hash.msg == Concat(pieces[..i])
    {
      assert pieces[..i + 1][..i] == pieces[..i];
      var _ := hash.Update(pieces[i]);
    }
    assert pieces[..|pieces|] == pieces;
    var r := hash.Digest();
    digest := r.value;
  }
}

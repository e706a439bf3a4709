/**
 The PIN-bound authorization record (tca/cryptolib.js, lib/oprf/server.go): the oblivious PRF behind
 the record key K_m, and the record's encryption in one session and decryption in a later one.
 */
module AuthRecord {
  import opened Wrappers
  import opened Field
  import opened HashMD
  import Hkdf

  datatype RecordError =
    | NotText | BadBase64 | InvalidElement | RecordTooShort | NotAuthentic | MalformedAcid

  // ---------------------------------------------------------------- the codecs

  /** A group element and its canonical bytes. The group is given by exponents modulo its prime order. */
  datatype PointCodec = PointCodec(encode: Scalar -> seq<byte>, decode: seq<byte> -> Option<Scalar>)

  ghost predicate Canonical(c: PointCodec) {
    && (forall p: Scalar :: c.decode(c.encode(p)) == Some(p))
    && (forall b :: c.decode(b).Some? ==> c.encode(c.decode(b).value) == b)
  }

  function ZeroBytes(n: nat): (r: seq<byte>)
    ensures |r| == n && forall b: seq<byte> | |b| == n && AllZero(b) :: b == r
    ensures AllZero(r)
  {
    seq(n, _ => 0)
  }

  predicate AllZero(b: seq<byte>) {
    forall i | 0 <= i < |b| :: b[i] == 0
  }

  type CanonicalCodec = c: PointCodec | Canonical(c)
    witness PointCodec((p: Scalar) => ZeroBytes(p), (b: seq<byte>) => if |b| < Q && AllZero(b) then Some(|b|) else None)

  const RISTRETTO: CanonicalCodec

  const HashToPoint: seq<byte> -> Scalar

  type Sha512 = h: Algorithm | ValidAlgorithm(h) && h.blockLen == 128 && h.outputLen == 64 && h.padOffset == 16
    witness Algorithm(128, 64, 16, seq(16, _ => 0), (st: seq<Word>, b: seq<byte>) => st)

  const SHA512: Sha512

  /** The browser's `btoa` and `atob` on strings of character codes below 256. */
  datatype Base64 = Base64(btoa: string -> string, atob: string -> Option<string>)

  predicate IsLatin1(s: string) {
    forall i | 0 <= i < |s| :: s[i] as int < 256
  }

  ghost predicate Faithful(c: Base64) {
    && (forall s | IsLatin1(s) :: c.atob(c.btoa(s)) == Some(s))
    && (forall s | c.atob(s).Some? :: IsLatin1(c.atob(s).value))
  }

  type FaithfulBase64 = c: Base64 | Faithful(c)
    witness Base64(s => s, s => if IsLatin1(s) then Some(s) else None)

  const BASE64: FaithfulBase64

  /** AES-GCM without associated data, taken as ideal: what was sealed opens, under the same key and IV. */
  datatype Aead = Aead(seal: (seq<byte>, seq<byte>, seq<byte>) -> seq<byte>,
                       open: (seq<byte>, seq<byte>, seq<byte>) -> Option<seq<byte>>)

  ghost predicate Opens(a: Aead) {
    forall k, iv, pt :: a.open(k, iv, a.seal(k, iv, pt)) == Some(pt)
  }

  type OpeningAead = a: Aead | Opens(a) witness Aead((k, iv, pt) => pt, (k, iv, ct) => Some(ct))

  const AES_GCM: OpeningAead

  /** `TextDecoder('ascii')`: its one-byte decoding leaves ASCII alone and maps other bytes outside of ASCII. */
  ghost predicate ExtendsAscii(f: byte -> char) {
    forall b: byte :: if b < 0x80 then f(b) == b as char else f(b) as int >= 0x80
  }

  type OneByteDecoder = f: byte -> char | ExtendsAscii(f) witness (b: byte) => b as char

  const AsciiDecoder: OneByteDecoder

  /** A member of a JSON object: missing, a string, or another value, given as string concatenation renders it. */
  datatype Member = Missing | Literal(s: string) | Value(rendered: string)

  /** The two members of an acid's JSON form; `None` if it does not parse, or to null. */
  const JsonAcid: string -> Option<(Member, Member)>

  // ---------------------------------------------------------------- base64

  function Latin1(b: seq<byte>): (r: string)
    ensures |r| == |b| && IsLatin1(r)
  {
    seq(|b|, i requires 0 <= i < |b| => b[i] as char)
  }

  function CharCodes(s: string): (r: seq<byte>)
    ensures |r| == |s|
  {
    seq(|s|, i requires 0 <= i < |s| => CharCode(s[i]))
  }

  function CharCode(c: char): byte { (c as int % 256) as byte }

  function ToBase64(b: seq<byte>): string { BASE64.btoa(Latin1(b)) }

  function FromBase64(s: string): Result<seq<byte>, RecordError> {
    var binary := BASE64.atob(s);
    if binary.None? then Err(BadBase64) else Ok(CharCodes(binary.value))
  }

  /** Encodes in chunks of 8192 bytes. */
  method Uint8ArrayToBase64(u8: seq<byte>) returns (s: string)
    ensures s == ToBase64(u8)
  {
    var binary := "";
    var chunkSize := 8192;
    var i := 0;
    while i < |u8|
      invariant 0 <= i && binary == Latin1(u8[..if i < |u8| then i else |u8|])
      decreases |u8| - i
    {
      var end := if i + chunkSize < |u8| then i + chunkSize else |u8|;
      var chunk := u8[i..end];
      var chunkBinary := "";
      for j := 0 to |chunk|
        invariant chunkBinary == Latin1(chunk[..j])
      {
        chunkBinary := chunkBinary + [chunk[j] as char];
      }
      assert chunk[..|chunk|] == chunk && u8[..end] == u8[..i] + chunk;
      binary := binary + chunkBinary;
      i := i + chunkSize;
    }
    assert u8[..|u8|] == u8;
    return BASE64.btoa(binary);
  }

  method Base64ToUint8Array(b64: string) returns (r: Result<array<byte>, RecordError>)
    ensures match FromBase64(b64)
            case Err(e) => r == Err(e)
            case Ok(b) => r.Ok? && fresh(r.value) && r.value[..] == b
  {
    var binary := BASE64.atob(b64);
    if binary.None? { return Err(BadBase64); }
    var bytes := new byte[|binary.value|](_ => 0);
    for i := 0 to |binary.value|
      invariant bytes[..i] == CharCodes(binary.value[..i])
    {
      bytes[i] := CharCode(binary.value[i]);
    }
    assert binary.value[..|binary.value|] == binary.value && bytes[..bytes.Length] == bytes[..];
    return Ok(bytes);
  }

  lemma Base64RoundTrip(b: seq<byte>)
    ensures FromBase64(ToBase64(b)) == Ok(b)
  {
    forall i | 0 <= i < |b|
      ensures CharCodes(Latin1(b))[i] == b[i]
    {
      CharOfByte(b[i]);
    }
    assert CharCodes(Latin1(b)) == b;
  }

  lemma CharOfByte(b: byte)
    ensures CharCode(b as char) == b && (b as char) as int == b as int
  {
    SmallModulo(b as int, 256);
  }

  // ---------------------------------------------------------------- text

  /** UTF-8, one character at a time. */
  function Utf8Char(c: char): (r: seq<byte>)
    ensures (c as int) < 0x80 ==> r == [CharCode(c)]
    ensures (c as int) >= 0x80 ==> |r| >= 2 && forall i | 0 <= i < |r| :: r[i] >= 0x80
  {
    var n := c as int;
    if n < 0x80 then [CharCode(c)]
    else if n < 0x800 then [Lead(0xC0, n / 0x40), Lead(0x80, n % 0x40)]
    else if n < 0x1_0000 then [Lead(0xE0, n / 0x1000), Lead(0x80, n / 0x40 % 0x40), Lead(0x80, n % 0x40)]
    else [Lead(0xF0, n / 0x4_0000), Lead(0x80, n / 0x1000 % 0x40), Lead(0x80, n / 0x40 % 0x40), Lead(0x80, n % 0x40)]
  }

  /** A byte with its high bits set to a mark. */
  function Lead(mark: nat, n: nat): (b: byte)
    requires 0x80 <= mark && mark + n < 0x100
    ensures b >= 0x80 && b as int == mark + n
  {
    ByteFits(mark + n);
    (mark + n) as byte
  }

  /** The code point in the UTF-8 form of one character. */
  function CodePoint(b: seq<byte>): int
    requires 1 <= |b| <= 4
  {
    if |b| == 1 then b[0] as int
    else if |b| == 2 then (b[0] as int - 0xC0) * 0x40 + (b[1] as int - 0x80)
    else if |b| == 3 then (b[0] as int - 0xE0) * 0x1000 + (b[1] as int - 0x80) * 0x40 + (b[2] as int - 0x80)
    else (b[0] as int - 0xF0) * 0x4_0000 + (b[1] as int - 0x80) * 0x1000 + (b[2] as int - 0x80) * 0x40
         + (b[3] as int - 0x80)
  }

  /** UTF-8 keeps every character: its code point is read back from its bytes, which are as few as the ranges say. */
  lemma Utf8CharDecodes(c: char)
    ensures var b, n := Utf8Char(c), c as int;
            && |b| == (if n < 0x80 then 1 else if n < 0x800 then 2 else if n < 0x1_0000 then 3 else 4)
            && CodePoint(b) == n
  {
    var n := c as int;
    SixBits(n);
    if n < 0x80 {
      ByteFits(n);
      SmallModulo(n, 256);
    }
  }

  lemma SixBits(n: nat)
    ensures n == n / 0x40 * 0x40 + n % 0x40
    ensures n == n / 0x1000 * 0x1000 + n / 0x40 % 0x40 * 0x40 + n % 0x40
    ensures n == n / 0x4_0000 * 0x4_0000 + n / 0x1000 % 0x40 * 0x1000 + n / 0x40 % 0x40 * 0x40 + n % 0x40
  {
    SixBitsTwice(n);
    SixBitsTwice(n / 0x40);
    TwelveBits(n);
  }

  lemma SixBitsTwice(n: nat)
    ensures n == n / 0x40 * 0x40 + n % 0x40 && n / 0x40 / 0x40 == n / 0x1000
  {}

  lemma TwelveBits(n: nat)
    ensures n / 0x40 / 0x1000 == n / 0x4_0000 && n / 0x1000 == n / 0x4_0000 * 0x40 + n / 0x1000 % 0x40
  {}

  /** An encoding applied character by character. */
  function EncodeEach(encode: char -> seq<byte>, s: string): seq<byte> {
    if s == "" then [] else EncodeEach(encode, s[..|s| - 1]) + encode(s[|s| - 1])
  }

  function Utf8(s: string): seq<byte> { EncodeEach(Utf8Char, s) }

  function DecodeAscii(b: seq<byte>): (r: string)
    ensures |r| == |b|
  {
    seq(|b|, i requires 0 <= i < |b| => AsciiDecoder(b[i]))
  }

  predicate IsAscii(s: string) {
    forall i | 0 <= i < |s| :: s[i] as int < 0x80
  }

  /** What becomes of a text that is encoded by one rule and decoded by the other. */
  function Reread(s: string): string { DecodeAscii(Utf8(s)) }

  lemma {:induction false} EncodeConcat(encode: char -> seq<byte>, a: string, b: string)
    ensures EncodeEach(encode, a + b) == EncodeEach(encode, a) + EncodeEach(encode, b)
  {
    if b == "" {
      assert a + b == a;
    } else {
      var m := |b| - 1;
      assert (a + b)[..|a + b| - 1] == a + b[..m];
      EncodeConcat(encode, a, b[..m]);
    }
  }

  lemma RereadConcat(a: string, b: string)
    ensures Reread(a + b) == Reread(a) + Reread(b)
  {
    EncodeConcat(Utf8Char, a, b);
  }

  lemma RereadChar(c: char)
    ensures if c as int < 0x80 then DecodeAscii(Utf8Char(c)) == [c]
            else |Utf8Char(c)| >= 2 && ':' !in DecodeAscii(Utf8Char(c))
  {
    if c as int < 0x80 {
      CharOfAscii(c);
    } else {
      var bs := Utf8Char(c);
      forall i | 0 <= i < |bs|
        ensures AsciiDecoder(bs[i]) as int >= 0x80
      {
        assert bs[i] >= 0x80;
      }
    }
  }

  lemma CharOfAscii(c: char)
    requires c as int < 0x80
    ensures CharCode(c) < 0x80 && CharCode(c) as char == c
  {
    SmallModulo(c as int, 256);
  }

  lemma RereadOneMore(front: string, c: char)
    ensures Reread(front + [c]) == Reread(front) + DecodeAscii(Utf8Char(c))
  {
    assert (front + [c])[..|front|] == front;
  }

  lemma {:induction false} RereadLength(s: string)
    ensures if IsAscii(s) then |Reread(s)| == |s| else |Reread(s)| > |s|
  {
    if s != "" {
      var front, c := s[..|s| - 1], s[|s| - 1];
      assert s == front + [c];
      RereadLength(front);
      RereadOneMore(front, c);
      assert IsAscii(s) <==> IsAscii(front) && c as int < 0x80;
    }
  }

  lemma {:induction false} RereadOfAscii(s: string)
    requires IsAscii(s)
    ensures Reread(s) == s
  {
    if s != "" {
      var front, c := s[..|s| - 1], s[|s| - 1];
      assert s == front + [c];
      RereadOfAscii(front);
      RereadOneMore(front, c);
      RereadChar(c);
    }
  }

  lemma {:induction false} RereadColons(s: string)
    ensures ':' in Reread(s) <==> ':' in s
  {
    if s != "" {
      var front, c := s[..|s| - 1], s[|s| - 1];
      assert s == front + [c];
      RereadColons(front);
      RereadOneMore(front, c);
      RereadChar(c);
    }
  }

  /** Exactly the ASCII texts survive; the decoding keeps colons where they are, and emptiness. */
  lemma RereadFacts(s: string)
    ensures s == "" <==> Reread(s) == ""
    ensures Reread(s) == s <==> IsAscii(s)
    ensures ':' in Reread(s) <==> ':' in s
  {
    RereadLength(s);
    RereadColons(s);
    if IsAscii(s) {
      RereadOfAscii(s);
    }
  }

  // ---------------------------------------------------------------- fields between colons

  /** JavaScript's split at colons. */
  function Split(s: string): (r: seq<string>)
    ensures |r| > 0
  {
    if s == "" then [""]
    else
      var rest := Split(s[1..]);
      if s[0] == ':' then [""] + rest else [[s[0]] + rest[0]] + rest[1..]
  }

  function NonEmpty(parts: seq<string>): seq<string> {
    if parts == [] then [] else (if parts[0] == "" then [] else [parts[0]]) + NonEmpty(parts[1..])
  }

  function WithoutColons(s: string): string {
    if s == "" then "" else (if s[0] == ':' then "" else [s[0]]) + WithoutColons(s[1..])
  }

  function EachWithoutColons(parts: seq<string>): seq<string> {
    if parts == [] then [] else [WithoutColons(parts[0])] + EachWithoutColons(parts[1..])
  }

  function Fields(s: string): seq<string> { EachWithoutColons(NonEmpty(Split(s))) }

  lemma {:induction false} SplitAtColon(a: string, b: string)
    requires ':' !in a
    ensures Split(a + ":" + b) == [a] + Split(b)
  {
    if a == "" {
      assert (a + ":" + b)[1..] == b;
    } else {
      SplitAtColon(a[1..], b);
      assert (a + ":" + b)[1..] == a[1..] + ":" + b;
      assert [a[0]] + a[1..] == a;
    }
  }

  lemma {:induction false} SplitWhole(a: string)
    requires ':' !in a
    ensures Split(a) == [a]
  {
    if a != "" {
      SplitWhole(a[1..]);
      assert [a[0]] + a[1..] == a;
    }
  }

  lemma {:induction false} NoColonsNothingDropped(s: string)
    requires ':' !in s
    ensures WithoutColons(s) == s
  {
    if s != "" {
      NoColonsNothingDropped(s[1..]);
    }
  }

  lemma {:induction false} SplitHasNoColons(s: string)
    ensures forall p | p in Split(s) :: ':' !in p
  {
    if s != "" {
      SplitHasNoColons(s[1..]);
    }
  }

  /** Every field is nonempty and free of colons. */
  lemma {:induction false} FieldsArePlain(parts: seq<string>)
    requires forall p | p in parts :: ':' !in p
    ensures forall p | p in EachWithoutColons(NonEmpty(parts)) :: p != "" && ':' !in p
  {
    if parts != [] {
      var rest := NonEmpty(parts[1..]);
      FieldsArePlain(parts[1..]);
      NoColonsNothingDropped(parts[0]);
      assert [] + rest == rest && ([parts[0]] + rest)[1..] == rest;
    }
  }

  lemma ThreeFields(a: string, b: string, c: string)
    requires a != "" && b != "" && c != "" && ':' !in a && ':' !in b && ':' !in c
    ensures Fields(a + ":" + (b + ":" + c)) == [a, b, c]
  {
    SplitAtColon(a, b + ":" + c);
    SplitAtColon(b, c);
    SplitWhole(c);
    assert Split(a + ":" + (b + ":" + c)) == [a, b, c];
    PlainFieldsStay([a, b, c]);
  }

  lemma {:induction false} PlainFieldsStay(parts: seq<string>)
    requires forall i | 0 <= i < |parts| :: parts[i] != "" && ':' !in parts[i]
    ensures EachWithoutColons(NonEmpty(parts)) == parts
  {
    if parts != [] {
      var rest := NonEmpty(parts[1..]);
      PlainFieldsStay(parts[1..]);
      NoColonsNothingDropped(parts[0]);
      assert ([parts[0]] + rest)[1..] == rest && [parts[0]] + parts[1..] == parts;
    }
  }

  // ---------------------------------------------------------------- the oblivious PRF

  /** An argument that should be a string or bytes. */
  datatype Text = Str(s: string) | Bytes(b: seq<byte>) | Other

  function BytesOf(t: Text): Result<seq<byte>, RecordError> {
    match t
    case Str(s) => Ok(Utf8(s))
    case Bytes(b) => Ok(b)
    case Other => Err(NotText)
  }

  function Sha(b: seq<byte>): seq<byte> { Hash(SHA512, b) }

  /** `r` is the blinding scalar the client draws. */
  function ClientBlind(input: seq<byte>, r: Scalar): seq<byte> {
    RISTRETTO.encode(ScalarMult(r, HashToPoint(input)))
  }

  /** The request alpha. */
  function CreateRegistrationRequest(pin: Text, uid: Text, r: Scalar): Result<string, RecordError> {
    var pinBytes, uidBytes := BytesOf(pin), BytesOf(uid);
    if pinBytes.Err? then Err(pinBytes.error)
    else if uidBytes.Err? then Err(uidBytes.error)
    else Ok(ToBase64(ClientBlind(Sha(pinBytes.value + uidBytes.value), r)))
  }

  function ServerEvaluate(skey: Scalar, blinded: seq<byte>): Result<seq<byte>, RecordError> {
    var p := RISTRETTO.decode(blinded);
    if p.None? then Err(InvalidElement) else Ok(RISTRETTO.encode(ScalarMult(skey, p.value)))
  }

  /** The IdP's answer beta to a request alpha. */
  function Answer(skey: Scalar, alpha: string): Result<string, RecordError> {
    var blinded := FromBase64(alpha);
    if blinded.Err? then Err(blinded.error)
    else
      var s := ServerEvaluate(skey, blinded.value);
      if s.Err? then Err(s.error) else Ok(ToBase64(s.value))
  }

  /** The scalar library inverts zero to zero, as `Inv` does. */
  function ClientUnblindAndFinalize(s: seq<byte>, r: Scalar): Result<seq<byte>, RecordError> {
    var p := RISTRETTO.decode(s);
    if p.None? then Err(InvalidElement) else Ok(Sha(RISTRETTO.encode(ScalarMult(Inv(r), p.value))))
  }

  /** HKDF-SHA512 without salt and info, to 32 bytes. */
  function HkdfDeriveEncKey(ikm: seq<byte>): (k: seq<byte>)
    ensures |k| == 32
  {
    Hkdf.Hkdf(SHA512, ikm, Some([]), Some([]), 32)
  }

  function GenerateEncKey(beta: string, r: Scalar): Result<seq<byte>, RecordError> {
    var s := FromBase64(beta);
    if s.Err? then Err(s.error)
    else
      var seed := ClientUnblindAndFinalize(s.value, r);
      if seed.Err? then Err(seed.error) else Ok(HkdfDeriveEncKey(seed.value))
  }

  /** The request written out: the point PIN and uid hash to, times the blinding scalar. */
  lemma RequestWrittenOut(pin: Text, uid: Text, r: Scalar)
    ensures CreateRegistrationRequest(pin, uid, r).Ok? <==> !pin.Other? && !uid.Other?
    ensures !pin.Other? && !uid.Other? ==>
              var p := HashToPoint(Hash(SHA512, BytesOf(pin).value + BytesOf(uid).value));
              CreateRegistrationRequest(pin, uid, r) == Ok(ToBase64(RISTRETTO.encode(ScalarMult(r, p))))
  {}

  /**
   The request hides PIN and uid: it is also the request for any other PIN and uid, with exactly one
   blinding scalar, unless those hash to the identity.
   */
  lemma RequestFitsEveryPin(pin: Text, uid: Text, r: Scalar, pin': Text, uid': Text, r': Scalar)
    requires !pin.Other? && !uid.Other? && !pin'.Other? && !uid'.Other?
    requires PinPoint(BytesOf(pin').value, BytesOf(uid').value) != 0
    ensures var p := PinPoint(BytesOf(pin).value, BytesOf(uid).value);
            var p' := PinPoint(BytesOf(pin').value, BytesOf(uid').value);
            CreateRegistrationRequest(pin, uid, r) == CreateRegistrationRequest(pin', uid', r')
            <==> r' == Mul(Inv(p'), Mul(r, p))
  {
    var p := PinPoint(BytesOf(pin).value, BytesOf(uid).value);
    var p' := PinPoint(BytesOf(pin').value, BytesOf(uid').value);
    RequestWrittenOut(pin, uid, r);
    RequestWrittenOut(pin', uid', r');
    TextsOfPoints(ScalarMult(r, p), ScalarMult(r', p'));
    Quotient(r', p', Mul(r, p));
  }

  lemma TextsOfPoints(a: Scalar, b: Scalar)
    ensures ToBase64(RISTRETTO.encode(a)) == ToBase64(RISTRETTO.encode(b)) <==> a == b
  {
    Base64RoundTrip(RISTRETTO.encode(a));
    Base64RoundTrip(RISTRETTO.encode(b));
    assert RISTRETTO.decode(RISTRETTO.encode(a)) == Some(a) && RISTRETTO.decode(RISTRETTO.encode(b)) == Some(b);
  }

  lemma Quotient(a: Scalar, b: Scalar, z: Scalar)
    requires b != 0
    ensures Mul(a, b) == z <==> a == Mul(Inv(b), z)
  {
    InvWorks(b);
    MulComm(a, b);
    MulAssoc(Inv(b), b, a);
    MulAssoc(b, Inv(b), z);
    MulOne(a);
    MulOne(z);
  }

  /** Bytes that are no group element are refused on both sides. */
  lemma InvalidElementsRefused(skey: Scalar, r: Scalar, b: seq<byte>)
    ensures RISTRETTO.decode(b).None? <==> ServerEvaluate(skey, b) == Err(InvalidElement)
    ensures RISTRETTO.decode(b).None? <==> GenerateEncKey(ToBase64(b), r) == Err(InvalidElement)
  {
    Base64RoundTrip(b);
  }

  /** One session: request, answer, record key. */
  function SessionKm(pin: Text, uid: Text, skey: Scalar, r: Scalar): Result<seq<byte>, RecordError> {
    var alpha := CreateRegistrationRequest(pin, uid, r);
    if alpha.Err? then Err(alpha.error)
    else
      var beta := Answer(skey, alpha.value);
      if beta.Err? then Err(beta.error) else GenerateEncKey(beta.value, r)
  }

  /** The point the PIN and uid hash to. */
  function PinPoint(pin: seq<byte>, uid: seq<byte>): Scalar { HashToPoint(Sha(pin + uid)) }

  /** The record key of a server key and a PIN, without any blinding. */
  function Km(skey: Scalar, p: Scalar): seq<byte> {
    Hkdf.Okm(SHA512, Hkdf.Hmac(SHA512, [], Hash(SHA512, RISTRETTO.encode(ScalarMult(skey, p)))), [], 32)
  }

  /** What is left after blinding with r, evaluating and unblinding. */
  function Unblinded(skey: Scalar, r: Scalar, p: Scalar): Scalar {
    ScalarMult(Inv(r), ScalarMult(skey, ScalarMult(r, p)))
  }

  lemma SessionUnfolds(pin: Text, uid: Text, skey: Scalar, r: Scalar)
    requires BytesOf(pin).Ok? && BytesOf(uid).Ok?
    ensures var p := PinPoint(BytesOf(pin).value, BytesOf(uid).value);
            SessionKm(pin, uid, skey, r) == Ok(HkdfDeriveEncKey(Sha(RISTRETTO.encode(Unblinded(skey, r, p)))))
  {
    var p := PinPoint(BytesOf(pin).value, BytesOf(uid).value);
    var blinded := ScalarMult(r, p);
    Base64RoundTrip(RISTRETTO.encode(blinded));
    assert RISTRETTO.decode(RISTRETTO.encode(blinded)) == Some(blinded);
    var evaluated := ScalarMult(skey, blinded);
    Base64RoundTrip(RISTRETTO.encode(evaluated));
    assert RISTRETTO.decode(RISTRETTO.encode(evaluated)) == Some(evaluated);
  }

  /** The blinding scalar drops out exactly when it is not zero, or when there is nothing to blind. */
  lemma BlindingCancels(skey: Scalar, r: Scalar, p: Scalar)
    ensures Unblinded(skey, r, p) == ScalarMult(skey, p) <==> r != 0 || ScalarMult(skey, p) == 0
  {
    if r == 0 {
      MulOne(p);
      MulOne(skey);
    } else {
      MulAssoc(skey, r, p);
      MulComm(skey, r);
      MulAssoc(r, skey, p);
      MulAssoc(Inv(r), r, ScalarMult(skey, p));
      InvWorks(r);
      MulOne(ScalarMult(skey, p));
    }
  }

  /**
   K_m depends on the PIN, the uid and the server key alone: with any nonzero blinding scalar a session
   yields the unblinded key, and it fails exactly when PIN or uid is neither a string nor bytes.
   */
  lemma KeyIgnoresBlinding(pin: Text, uid: Text, skey: Scalar, r: Scalar)
    requires r != 0
    ensures SessionKm(pin, uid, skey, r)
         == if pin.Other? || uid.Other? then Err(NotText)
            else Ok(Km(skey, PinPoint(BytesOf(pin).value, BytesOf(uid).value)))
    ensures !pin.Other? && !uid.Other? ==>
              var p := HashToPoint(Hash(SHA512, BytesOf(pin).value + BytesOf(uid).value));
              var seed := Hash(SHA512, RISTRETTO.encode(ScalarMult(skey, p)));
              SessionKm(pin, uid, skey, r) == Ok(Hkdf.Okm(SHA512, Hkdf.Hmac(SHA512, [], seed), [], 32))
  {
    if !pin.Other? && !uid.Other? {
      SessionUnfolds(pin, uid, skey, r);
      BlindingCancels(skey, r, PinPoint(BytesOf(pin).value, BytesOf(uid).value));
    }
  }

  // ---------------------------------------------------------------- the record

  /** What is stored: IV and ciphertext in one string or in two, or something else. */
  datatype DEnc = Combined(s: string) | Pair(iv: Option<string>, ciphertext: Option<string>) | Neither

  datatype AuthorizationRecord = AuthorizationRecord(
    D: Option<string>, Sigma1: Option<string>, Sigma2: Option<string>, Nonce: string)

  /** What JavaScript's string concatenation makes of a member. */
  function Rendered(member: Member): string {
    match member
    case Missing => "undefined"
    case Literal(s) => s
    case Value(rendered) => rendered
  }

  /** Domain and acid between colons; each is left out if it is not a string. */
  function Plaintext(D: Option<string>, acid: Option<string>): Result<string, RecordError> {
    var domain := if D.Some? then D.value + ":" else "";
    if acid.None? then Ok(domain)
    else
      var obj := JsonAcid(acid.value);
      if obj.None? then Err(MalformedAcid)
      else Ok(domain + (Rendered(obj.value.0) + ":" + Rendered(obj.value.1)))
  }

  /** Encrypts domain and acid under K_m; nonce and IV are what the generator draws. */
  function GenerateDEnc(key: seq<byte>, D: Option<string>, acid: Option<string>, nonce: seq<byte>, iv: seq<byte>)
    : Result<(string, string), RecordError>
    requires |nonce| == 16 && |iv| == 12
  {
    var plaintext := Plaintext(D, acid);
    if plaintext.Err? then Err(plaintext.error)
    else Ok((ToBase64(iv + AES_GCM.seal(key, iv, Utf8(plaintext.value) + nonce)), ToBase64(nonce)))
  }

  /** A JavaScript index: counted from the end when negative, and clamped. */
  function Index(n: int, length: nat): (r: nat)
    ensures r <= length
  {
    if n < 0 then (if length + n < 0 then 0 else length + n) else if n < length then n else length
  }

  const HEX := "0123456789ABCDEF"

  function PrettyPrintBytes(b: seq<byte>): string { "0x" + Hex(b) }

  function HexPair(n: nat): (r: string)
    requires n < 256
    ensures |r| == 2
  {
    [HEX[n / 16], HEX[n % 16]]
  }

  function HexByte(x: byte): (r: string)
    ensures |r| == 2
  {
    HexPair(x as int)
  }

  function Hex(b: seq<byte>): (r: string)
    ensures |r| == 2 * |b|
  {
    if b == [] then "" else HexByte(b[0]) + Hex(b[1..])
  }

  function FieldAt(fields: seq<string>, i: nat): Option<string> {
    if i < |fields| && fields[i] != "" then Some(fields[i]) else None
  }

  /** IV and ciphertext of a stored record. */
  function Dissect(denc: DEnc): Result<(seq<byte>, seq<byte>), RecordError> {
    match denc
    case Pair(iv, ct) =>
      if iv.None? || ct.None? then Err(NotText)
      else
        var ivBytes := FromBase64(iv.value);
        var ctBytes := FromBase64(ct.value);
        if ivBytes.Err? then Err(ivBytes.error)
        else if ctBytes.Err? then Err(ctBytes.error)
        else Ok((ivBytes.value, ctBytes.value))
    case Combined(s) =>
      var combined := FromBase64(s);
      if combined.Err? then Err(combined.error)
      else if |combined.value| < 12 then Err(RecordTooShort)
      else Ok((combined.value[..12], combined.value[12..]))
    case Neither => Err(NotText)
  }

  function DecryptDEnc(key: seq<byte>, denc: DEnc): Result<AuthorizationRecord, RecordError> {
    var parts := Dissect(denc);
    if parts.Err? then Err(parts.error)
    else
      var result := AES_GCM.open(key, parts.value.0, parts.value.1);
      if result.None? then Err(NotAuthentic)
      else
        var cut := Index(|result.value| - 16, |result.value|);
        var fields := Fields(DecodeAscii(result.value[..cut]));
        Ok(AuthorizationRecord(FieldAt(fields, 0), FieldAt(fields, 1), FieldAt(fields, 2),
                               PrettyPrintBytes(result.value[cut..])))
  }

  /** The nonce can be told from the way it is shown. */
  lemma NonceFromDisplay(a: seq<byte>, b: seq<byte>)
    ensures PrettyPrintBytes(a) == PrettyPrintBytes(b) <==> a == b
  {
    HexInjective(a, b);
    assert PrettyPrintBytes(a)[2..] == Hex(a) && PrettyPrintBytes(b)[2..] == Hex(b);
  }

  lemma {:induction false} HexInjective(a: seq<byte>, b: seq<byte>)
    ensures Hex(a) == Hex(b) <==> a == b
  {
    if Hex(a) == Hex(b) && a != [] {
      assert |a| == |b|;
      assert Hex(a)[..2] == HexByte(a[0]) && Hex(a)[2..] == Hex(a[1..]);
      assert Hex(b)[..2] == HexByte(b[0]) && Hex(b)[2..] == Hex(b[1..]);
      HexByteInjective(a[0], b[0]);
      HexInjective(a[1..], b[1..]);
      assert a == [a[0]] + a[1..] && b == [b[0]] + b[1..];
    }
  }

  lemma HexByteInjective(x: byte, y: byte)
    requires HexByte(x) == HexByte(y)
    ensures x == y
  {
    HexPairInjective(x as int, y as int);
  }

  lemma HexPairInjective(m: nat, n: nat)
    requires m < 256 && n < 256 && HexPair(m) == HexPair(n)
    ensures m == n
  {
    assert HexPair(m)[0] == HexPair(n)[0] && HexPair(m)[1] == HexPair(n)[1];
    HexDigits(m / 16, n / 16);
    HexDigits(m % 16, n % 16);
  }

  lemma HexDigits(i: nat, j: nat)
    requires i < 16 && j < 16 && HEX[i] == HEX[j]
    ensures i == j
  {}

  /** The record written out: IV, then domain, acid members and nonce sealed under the key and that IV. */
  lemma RecordWrittenOut(key: seq<byte>, D: Option<string>, acid: Option<string>, nonce: seq<byte>, iv: seq<byte>)
    requires |nonce| == 16 && |iv| == 12
    ensures GenerateDEnc(key, D, acid, nonce, iv).Err? <==> acid.Some? && JsonAcid(acid.value).None?
    ensures GenerateDEnc(key, D, acid, nonce, iv).Ok? ==>
              var domain := if D.Some? then D.value + ":" else "";
              var text := if acid.None? then domain
                          else
                            var (m1, m2) := JsonAcid(acid.value).value;
                            domain + (Rendered(m1) + ":" + Rendered(m2));
              GenerateDEnc(key, D, acid, nonce, iv)
              == Ok((ToBase64(iv + AES_GCM.seal(key, iv, Utf8(text) + nonce)), ToBase64(nonce)))
  {}

  /** A record decrypts iff it has an IV and opens under the key and that IV, in either form it is stored in. */
  lemma DecryptsIff(key: seq<byte>, b: seq<byte>, iv: seq<byte>, ct: seq<byte>)
    ensures DecryptDEnc(key, Combined(ToBase64(b))).Ok? <==> |b| >= 12 && AES_GCM.open(key, b[..12], b[12..]).Some?
    ensures DecryptDEnc(key, Pair(Some(ToBase64(iv)), Some(ToBase64(ct)))).Ok? <==> AES_GCM.open(key, iv, ct).Some?
    ensures |iv| == 12 ==>
              DecryptDEnc(key, Pair(Some(ToBase64(iv)), Some(ToBase64(ct))))
              == DecryptDEnc(key, Combined(ToBase64(iv + ct)))
  {
    Base64RoundTrip(b);
    Base64RoundTrip(iv);
    Base64RoundTrip(ct);
    Base64RoundTrip(iv + ct);
    if |iv| == 12 {
      assert (iv + ct)[..12] == iv && (iv + ct)[12..] == ct;
    }
  }

  /** What decrypting a freshly made record yields: the reread fields, and the nonce. */
  lemma DecryptsToFields(key: seq<byte>, D: Option<string>, acid: Option<string>, nonce: seq<byte>, iv: seq<byte>)
    requires |nonce| == 16 && |iv| == 12 && Plaintext(D, acid).Ok?
    ensures GenerateDEnc(key, D, acid, nonce, iv).Ok?
    ensures var fields := Fields(Reread(Plaintext(D, acid).value));
            DecryptDEnc(key, Combined(GenerateDEnc(key, D, acid, nonce, iv).value.0))
            == Ok(AuthorizationRecord(FieldAt(fields, 0), FieldAt(fields, 1), FieldAt(fields, 2),
                                      PrettyPrintBytes(nonce)))
  {
    var pt := Utf8(Plaintext(D, acid).value);
    var ct := AES_GCM.seal(key, iv, pt + nonce);
    Base64RoundTrip(iv + ct);
    assert (iv + ct)[..12] == iv && (iv + ct)[12..] == ct;
    assert AES_GCM.open(key, iv, ct) == Some(pt + nonce);
    assert (pt + nonce)[..|pt|] == pt && (pt + nonce)[|pt|..] == nonce;
  }

  /** A field survives the record. */
  predicate Survives(s: string) {
    s != "" && ':' !in s && IsAscii(s)
  }

  /** The fields come back exactly when each of them is nonempty, without colons and ASCII. */
  lemma FieldsSurviveIff(a: string, b: string, c: string)
    ensures var fields := Fields(Reread(a + ":" + (b + ":" + c)));
            FieldAt(fields, 0) == Some(a) && FieldAt(fields, 1) == Some(b) && FieldAt(fields, 2) == Some(c)
            <==> Survives(a) && Survives(b) && Survives(c)
  {
    var text := Reread(a + ":" + (b + ":" + c));
    var fields := Fields(text);
    SplitHasNoColons(text);
    FieldsArePlain(Split(text));
    if FieldAt(fields, 0) == Some(a) && FieldAt(fields, 1) == Some(b) && FieldAt(fields, 2) == Some(c) {
      assert fields[0] in fields && fields[1] in fields && fields[2] in fields;
    }
    if a != "" && b != "" && c != "" && ':' !in a && ':' !in b && ':' !in c {
      RereadOfThree(a, b, c);
      RereadFacts(a);
      RereadFacts(b);
      RereadFacts(c);
      ThreeFields(Reread(a), Reread(b), Reread(c));
    }
  }

  lemma RereadOfThree(a: string, b: string, c: string)
    ensures Reread(a + ":" + (b + ":" + c)) == Reread(a) + ":" + (Reread(b) + ":" + Reread(c))
  {
    RereadFacts(":");
    RereadConcat(a + ":", b + ":" + c);
    RereadConcat(a, ":");
    RereadConcat(b + ":", c);
    RereadConcat(b, ":");
  }

  /**
   The record's round trip, exactly. For every domain and every acid with members Sigma1 and Sigma2, a
   record made under a key decrypts under it, to the same nonce always, and to the same domain and
   members iff all three are nonempty, free of colons and ASCII.
   */
  lemma RecordRoundTrip(key: seq<byte>, D: string, acid: string, s1: string, s2: string,
                        nonce: seq<byte>, iv: seq<byte>)
    requires |nonce| == 16 && |iv| == 12 && JsonAcid(acid) == Some((Literal(s1), Literal(s2)))
    ensures var made := GenerateDEnc(key, Some(D), Some(acid), nonce, iv);
            && made.Ok? && FromBase64(made.value.1) == Ok(nonce)
            && var read := DecryptDEnc(key, Combined(made.value.0));
            && read.Ok? && read.value.Nonce == PrettyPrintBytes(nonce)
            && ((read.value.D, read.value.Sigma1, read.value.Sigma2) == (Some(D), Some(s1), Some(s2))
                <==> Survives(D) && Survives(s1) && Survives(s2))
  {
    DecryptsToFields(key, Some(D), Some(acid), nonce, iv);
    assert Plaintext(Some(D), Some(acid)).value == D + ":" + (s1 + ":" + s2);
    FieldsSurviveIff(D, s1, s2);
    Base64RoundTrip(nonce);
  }

  /**
   Across sessions: a record made in one session is read back in any later one in which the user gives
   the same PIN and uid and the server has the same key, whatever nonzero blinding scalars the two sessions draw.
   */
  lemma RecordCrossesSessions(pin: Text, uid: Text, skey: Scalar, r: Scalar, r': Scalar,
                              D: string, acid: string, s1: string, s2: string, nonce: seq<byte>, iv: seq<byte>)
    requires !pin.Other? && !uid.Other? && r != 0 && r' != 0
    requires |nonce| == 16 && |iv| == 12 && JsonAcid(acid) == Some((Literal(s1), Literal(s2)))
    requires Survives(D) && Survives(s1) && Survives(s2)
    ensures SessionKm(pin, uid, skey, r).Ok? && SessionKm(pin, uid, skey, r').Ok?
    ensures var made := GenerateDEnc(SessionKm(pin, uid, skey, r).value, Some(D), Some(acid), nonce, iv);
            && made.Ok?
            && DecryptDEnc(SessionKm(pin, uid, skey, r').value, Combined(made.value.0))
               == Ok(AuthorizationRecord(Some(D), Some(s1), Some(s2), PrettyPrintBytes(nonce)))
  {
    KeyIgnoresBlinding(pin, uid, skey, r);
    KeyIgnoresBlinding(pin, uid, skey, r');
    RecordRoundTrip(SessionKm(pin, uid, skey, r).value, D, acid, s1, s2, nonce, iv);
  }
}

/** Protection of QUIC Initial packets: sections 5.2 and 5.4 of RFC 9001, section 17.2.2 of
    RFC 9000, section 3 of RFC 9369. The ciphers are parameters. */
module InitialPacket {
  import opened Bytes
  import opened Common
  import opened Varint

  datatype Version = V1 | V2 {
    function Number(): nat {
      match this case V1 => 0x00000001 case V2 => 0x6b3343cf
    }

    /** The long-header type that means Initial. */
    function InitialType(): nat {
      match this case V1 => 0 case V2 => 1
    }
  }

  datatype PacketError = NotInitial | UnsupportedVersion | Malformed

  datatype Keys = Keys(key: bytes, iv: bytes, hp: bytes)

  /** Key derivation, the header-protection block cipher and the AEAD. */
  datatype Suite = Suite(
    derive: (Version, bytes) -> Keys,
    mask: (bytes, bytes) -> bytes,
    seal: (bytes, bytes, bytes, bytes) -> bytes,
    open: (bytes, bytes, bytes, bytes) -> Option<bytes>)
  {
    /** A twelve-byte nonce base and sixteen-byte cipher blocks. */
    ghost predicate Shaped() {
      && (forall v, dcid :: |derive(v, dcid).iv| == 12)
      && (forall hp, sample :: |mask(hp, sample)| == 16)
    }

    /** Sealing appends a sixteen-byte tag, and opening what was sealed gives it back. */
    ghost predicate OpensSealed() {
      && (forall k, n, p, a :: |seal(k, n, p, a)| == |p| + 16)
      && (forall k, n, p, a :: open(k, n, seal(k, n, p, a), a) == Some(p))
    }
  }

  /** The laws asked of a suite can hold together: appending a blank tag meets them. */
  lemma LawsAreConsistent() returns (s: Suite)
    ensures s.Shaped() && s.OpensSealed()
  {
    var zeros: nat -> bytes := (n: nat) => seq(n, _ => 0);
    s := Suite(
      (_, _) => Keys([], zeros(12), []),
      (_, _) => zeros(16),
      (_, _, p, _) => p + zeros(16),
      (_, _, c, _) => if |c| >= 16 then Some(c[..|c| - 16]) else None);
    forall k, n, p, a
      ensures s.open(k, n, s.seal(k, n, p, a), a) == Some(p)
    {
      assert (p + zeros(16))[..|p|] == p;
    }
  }

  // ---------- Reading ----------

  /** The fields decryption needs, with the offsets of the packet number and of the end. */
  datatype Header = Header(version: Version, dcid: bytes, pnOffset: nat, end: nat)

  function LookupVersion(v: nat): Option<Version> {
    if v == V1.Number() then Some(V1) else if v == V2.Number() then Some(V2) else None
  }

  function ConnectionId(b: bytes): (r: Option<(bytes, bytes)>)
    ensures r.Some? ==> |r.value.0| <= 20 && |r.value.1| + |r.value.0| + 1 == |b|
  {
    if |b| == 0 || b[0] > 20 || 1 + b[0] > |b| then None
    else Some((b[1..1 + b[0]], b[1 + b[0]..]))
  }

  function Token(b: bytes): (r: Option<bytes>)
    ensures r.Some? ==> |r.value| < |b|
  {
    match Read(b)
    case None => None
    case Some((len, w)) => if len > |b| - w then None else Some(b[w + len..])
  }

  function ReadHeader(pkt: bytes): (r: Result<Header, PacketError>)
    ensures r.Ok? ==> r.value.pnOffset + 20 <= r.value.end <= |pkt| && r.value.pnOffset >= 9
  {
    if |pkt| < 9 || pkt[0] / 128 == 0 || pkt[0] / 64 % 2 == 0 then Err(NotInitial)
    else
      var version := LookupVersion(FromBe(pkt[1..5]));
      if version.None? then Err(UnsupportedVersion)
      else if pkt[0] / 16 % 4 != version.value.InitialType() then Err(NotInitial)
      else ReadFields(pkt, version.value)
  }

  function ReadFields(pkt: bytes, version: Version): (r: Result<Header, PacketError>)
    requires |pkt| >= 9
    ensures r.Ok? ==> r.value.pnOffset + 20 <= r.value.end <= |pkt| && r.value.pnOffset >= 9
  {
    var dcid := ConnectionId(pkt[5..]);
    if dcid.None? then Err(Malformed)
    else
      var scid := ConnectionId(dcid.value.1);
      if scid.None? then Err(Malformed)
      else
        var token := Token(scid.value.1);
        if token.None? then Err(Malformed)
        else
          var len := Read(token.value);
          if len.None? then Err(Malformed)
          else
            var pnOffset := |pkt| - |token.value| + len.value.1;
            if len.value.0 < 20 || len.value.0 > |pkt| - pnOffset then Err(Malformed)
            else Ok(Header(version, dcid.value.0, pnOffset, pnOffset + len.value.0))
  }

  /** The nonce base with the packet number folded into its last eight bytes. */
  function Nonce(iv: bytes, pn: nat): bytes
    requires |iv| == 12
  {
    iv[..4] + XorBytes(iv[4..], Be(pn, 8))
  }

  /** Removing header protection from the packet and opening its payload. */
  function OpenAt(suite: Suite, pkt: bytes, h: Header): Result<(bytes, nat), PacketError>
    requires suite.Shaped() && 0 < h.pnOffset && h.pnOffset + 20 <= h.end <= |pkt|
  {
    var keys := suite.derive(h.version, h.dcid);
    var body := pkt[h.pnOffset..h.end];
    var mask := suite.mask(keys.hp, body[4..20]);
    var first := XorByte(pkt[0], mask[0] % 16);
    var pnLen := first % 4 + 1;
    var pn := XorBytes(body[..pnLen], mask[1..]);
    var aad := [first] + pkt[1..h.pnOffset] + pn;
    match suite.open(keys.key, Nonce(keys.iv, FromBe(pn)), body[pnLen..], aad)
    case None => Err(Malformed)
    case Some(plain) => Ok((plain, h.end))
  }

  function Decrypt(suite: Suite, pkt: bytes): (r: Result<(bytes, nat), PacketError>)
    requires suite.Shaped()
    ensures r.Ok? ==> 0 < r.value.1 <= |pkt|
  {
    match ReadHeader(pkt)
    case Err(e) => Err(e)
    case Ok(h) => OpenAt(suite, pkt, h)
  }

  /** Section 5.3 of RFC 9001: the packet number, left-padded with zeros to the size of the
      nonce base, is combined with it by exclusive or. */
  function PaperNonce(iv: bytes, pn: nat): (nonce: bytes)
    requires |iv| == 12
    ensures |nonce| == 12
  {
    XorBytes(iv, Be(pn, 12))
  }

  /** For every packet number the source's 64-bit integer holds. */
  lemma NonceIsPadded(iv: bytes, pn: nat)
    requires |iv| == 12 && pn < Pow256(8)
    ensures Nonce(iv, pn) == PaperNonce(iv, pn)
  {
    hide Be, XorByte, Pow256;
    forall k | 0 <= k < 12
      ensures Nonce(iv, pn)[k] == PaperNonce(iv, pn)[k]
    {
      BeByte(pn, 12, 11 - k);
      if k < 4 {
        PowersGrow(8, 11 - k);
        SmallQuotient(pn, Pow256(11 - k));
        XorByteMeaning(iv[k], 0, 0);
      } else {
        BeByte(pn, 8, 11 - k);
      }
    }
  }

  lemma SmallQuotient(n: nat, d: nat)
    requires n < d
    ensures n / d % 256 == 0
  {
    QuotientIs(n, d, 0, n);
  }

  lemma {:induction false} PowersGrow(j: nat, k: nat)
    requires j <= k
    ensures Pow256(j) <= Pow256(k)
  {
    if j < k {
      PowersGrow(j, k - 1);
    }
  }

  /** What a nonce is: the first four bytes are those of the base, byte `k` of the other eight is
      the base's combined with that byte of the number, and taking the base off leaves the number. */
  ghost predicate IsNonce(nonce: bytes, iv: bytes, pn: nat)
    requires |iv| == 12
  {
    && |nonce| == 12 && nonce[..4] == iv[..4]
    && (forall k | 4 <= k < 12 :: nonce[k] == XorByte(iv[k], pn / Pow256(11 - k) % 256))
    && (pn < Pow256(8) ==> FromBe(XorBytes(nonce, iv)) == pn)
  }

  lemma NonceHoldsNumber(iv: bytes, pn: nat)
    requires |iv| == 12
    ensures IsNonce(Nonce(iv, pn), iv, pn)
  {
    hide Be, XorByte, Pow256, FromBe;
    forall k | 4 <= k < 12
      ensures Nonce(iv, pn)[k] == XorByte(iv[k], pn / Pow256(11 - k) % 256)
    {
      BeByte(pn, 8, 11 - k);
    }
    if pn < Pow256(8) {
      BaseOffNonce(iv, pn);
    }
  }

  lemma BaseOffNonce(iv: bytes, pn: nat)
    requires |iv| == 12 && pn < Pow256(8)
    ensures |Nonce(iv, pn)| == 12 && FromBe(XorBytes(Nonce(iv, pn), iv)) == pn
  {
    NonceIsPadded(iv, pn);
    PowersGrow(8, 12);
    FromBeOfBe(pn, 12);
    hide Be, Pow256, Nonce;
    var padded := Be(pn, 12);
    forall k | 0 <= k < 12
      ensures XorByte(iv[k], padded[k]) == XorByte(padded[k], iv[k])
    {
      XorByteMeaning(iv[k], padded[k], 0);
    }
    hide XorByte;
    assert PaperNonce(iv, pn) == XorBytes(padded, iv);
    XorBytesCancel(padded, iv);
  }

  /** The number shifted right by `j` bytes. */
  function ShiftBytes(n: nat, j: nat): nat {
    if j == 0 then n else ShiftBytes(n / 256, j - 1)
  }

  lemma {:induction false} BeAt(n: nat, k: nat, j: nat)
    requires j < k
    ensures Be(n, k)[k - 1 - j] == ShiftBytes(n, j) % 256
    decreases k
  {
    if j > 0 {
      BeAt(n / 256, k - 1, j - 1);
    }
  }

  /** The nonce loop: byte by byte from the right. */
  method BuildNonce(iv: bytes, pn: nat) returns (nonce: bytes)
    requires |iv| == 12
    ensures nonce == Nonce(iv, pn)
    ensures IsNonce(nonce, iv, pn)
  {
    hide IsNonce, Pow256;
    nonce := iv;
    ghost var low := Be(pn, 8);
    var j := 0;
    while j < 8
      invariant 0 <= j <= 8 && |nonce| == 12
      invariant forall k | 0 <= k < 12 - j :: nonce[k] == iv[k]
      invariant forall k | 12 - j <= k < 12 :: nonce[k] == XorByte(iv[k], low[k - 4])
    {
      BeAt(pn, 8, j);
      nonce := nonce[11 - j := XorByte(nonce[11 - j], ShiftBytes(pn, j) % 256)];
      j := j + 1;
    }
    NonceHoldsNumber(iv, pn);
  }

  /** The packet-number loop: unmask each byte into the rebuilt header and accumulate. */
  method UnmaskNumber(pkt: bytes, pnOffset: nat, pnLen: nat, mask: bytes, first: byte)
    returns (header: bytes, pn: nat)
    requires 0 < pnOffset && pnOffset + pnLen <= |pkt| && pnLen < |mask|
    ensures var number := XorBytes(pkt[pnOffset..pnOffset + pnLen], mask[1..]);
      pn == FromBe(number) && header == [first] + pkt[1..pnOffset] + number
  {
    ghost var number := XorBytes(pkt[pnOffset..pnOffset + pnLen], mask[1..]);
    NumberBytes(pkt, pnOffset, pnLen, mask);
    hide XorByte, XorBytes, FromBe;
    header := pkt[..pnOffset + pnLen][0 := first];
    pn := 0;
    var j := 0;
    NoNumber(number);
    while j < pnLen
      invariant 0 <= j <= pnLen && |header| == pnOffset + pnLen
      invariant header[0] == first && forall k | 0 < k < pnOffset :: header[k] == pkt[k]
      invariant forall k | 0 <= k < j :: header[pnOffset + k] == number[k]
      invariant pn == FromBe(number[..j])
    {
      header := header[pnOffset + j := XorByte(pkt[pnOffset + j], mask[1 + j])];
      FromBeStep(number, j);
      pn := pn * 256 + header[pnOffset + j];
      j := j + 1;
    }
    assert number[..pnLen] == number;
    HeaderParts(header, pkt, pnOffset, first, number);
  }

  lemma HeaderParts(header: bytes, pkt: bytes, pnOffset: nat, first: byte, number: bytes)
    requires 0 < pnOffset <= |pkt| && |header| == pnOffset + |number| && header[0] == first
    requires forall k | 0 < k < pnOffset :: header[k] == pkt[k]
    requires forall k | 0 <= k < |number| :: header[pnOffset + k] == number[k]
    ensures header == [first] + pkt[1..pnOffset] + number
  {
    var parts := [first] + pkt[1..pnOffset] + number;
    forall i | 0 <= i < |header|
      ensures header[i] == parts[i]
    {
      if i >= pnOffset {
        assert header[pnOffset + (i - pnOffset)] == number[i - pnOffset];
      }
    }
  }

  lemma NoNumber(number: bytes)
    ensures FromBe(number[..0]) == 0
  {
  }

  lemma NumberBytes(pkt: bytes, pnOffset: nat, pnLen: nat, mask: bytes)
    requires pnOffset + pnLen <= |pkt| && pnLen < |mask|
    ensures var number := XorBytes(pkt[pnOffset..pnOffset + pnLen], mask[1..]);
      forall j | 0 <= j < pnLen :: number[j] == XorByte(pkt[pnOffset + j], mask[1 + j])
  {
    hide XorByte;
  }

  /** The second half of `decryptInitial`, past the header fields. The source's later bounds
      checks are the three asserted facts: a length field of at least 20 implies them. */
  method OpenPacket(suite: Suite, pkt: bytes, h: Header)
    returns (r: Result<(bytes, nat), PacketError>)
    requires suite.Shaped() && 0 < h.pnOffset && h.pnOffset + 20 <= h.end <= |pkt|
    ensures r == OpenAt(suite, pkt, h)
  {
    hide IsNonce, Nonce, FromBe, XorByte;
    ghost var body := pkt[h.pnOffset..h.end];
    var keys := suite.derive(h.version, h.dcid);
    var sampleOff := h.pnOffset + 4;
    assert sampleOff + 16 <= h.end;
    SliceOfSlice(pkt, h.pnOffset, h.end, 4, 20);
    var mask := suite.mask(keys.hp, pkt[sampleOff..sampleOff + 16]);
    var first := XorByte(pkt[0], mask[0] % 16);
    var pnLen := first % 4 + 1;
    assert h.pnOffset + pnLen <= h.end;
    var header, pn := UnmaskNumber(pkt, h.pnOffset, pnLen, mask, first);
    SliceOfSlice(pkt, h.pnOffset, h.end, 0, pnLen);
    var ciphertext := pkt[h.pnOffset + pnLen..h.end];
    SliceOfSlice(pkt, h.pnOffset, h.end, pnLen, h.end - h.pnOffset);
    assert body[0..pnLen] == body[..pnLen];
    assert |ciphertext| >= 16;
    var nonce := BuildNonce(keys.iv, pn);
    match suite.open(keys.key, nonce, ciphertext, header)
    case None => return Err(Malformed);
    case Some(plain) => return Ok((plain, h.end));
  }

  lemma ConnectionIdAt(pkt: bytes, i: nat)
    requires i <= |pkt|
    ensures ConnectionId(pkt[i..])
         == if i == |pkt| || pkt[i] > 20 || i + 1 + pkt[i] > |pkt| then None
            else Some((pkt[i + 1..i + 1 + pkt[i]], pkt[i + 1 + pkt[i]..]))
  {
    if i < |pkt| && i + 1 + pkt[i] <= |pkt| {
      var b := pkt[i..];
      assert b[1..1 + b[0]] == pkt[i + 1..i + 1 + pkt[i]];
      assert b[1 + b[0]..] == pkt[i + 1 + pkt[i]..];
    }
  }

  lemma NoToken(b: bytes)
    ensures Read(b).None? ==> Token(b).None?
  {
    hide Read;
  }

  lemma TokenAt(pkt: bytes, i: nat, len: nat, w: nat)
    requires i <= |pkt| && Read(pkt[i..]) == Some((len, w))
    ensures i + w <= |pkt|
    ensures Token(pkt[i..]) == if len > |pkt| - i - w then None else Some(pkt[i + w + len..])
  {
    hide Read;
    if i + w + len <= |pkt| {
      assert pkt[i..][w + len..] == pkt[i + w + len..];
    }
  }

  /** The index walk over connection identifiers, token and length. */
  method WalkFields(pkt: bytes, version: Version) returns (r: Result<Header, PacketError>)
    requires |pkt| >= 9
    ensures r == ReadFields(pkt, version)
  {
    hide Read, ConnectionId, Token;
    var i := 5;
    ConnectionIdAt(pkt, i);
    if pkt[i] > 20 || i + 1 + pkt[i] > |pkt| {
      return Err(Malformed);
    }
    var dcid := pkt[i + 1..i + 1 + pkt[i]];
    i := i + 1 + pkt[i];
    ConnectionIdAt(pkt, i);
    if i >= |pkt| || pkt[i] > 20 || i + 1 + pkt[i] > |pkt| {
      return Err(Malformed);
    }
    i := i + 1 + pkt[i];
    var tokenLen, n, found := ReadVarint(pkt[i..]);
    NoToken(pkt[i..]);
    if !found {
      return Err(Malformed);
    }
    i := i + n;
    TokenAt(pkt, i - n, tokenLen, n);
    if tokenLen > |pkt| - i {
      return Err(Malformed);
    }
    i := i + tokenLen;
    var length, m, ok := ReadVarint(pkt[i..]);
    if !ok {
      return Err(Malformed);
    }
    i := i + m;
    if length < 20 || length > |pkt| - i {
      return Err(Malformed);
    }
    return Ok(Header(version, dcid, i, i + length));
  }

  /** `decryptInitial`. */
  method DecryptInitial(suite: Suite, pkt: bytes) returns (r: Result<(bytes, nat), PacketError>)
    requires suite.Shaped()
    ensures r == Decrypt(suite, pkt)
  {
    hide OpenAt, Suite.Shaped, ReadFields, LookupVersion;
    if |pkt| < 9 || pkt[0] / 128 == 0 || pkt[0] / 64 % 2 == 0 {
      return Err(NotInitial);
    }
    var version := LookupVersion(FromBe(pkt[1..5]));
    if version.None? {
      return Err(UnsupportedVersion);
    }
    if pkt[0] / 16 % 4 != version.value.InitialType() {
      return Err(NotInitial);
    }
    var h := WalkFields(pkt, version.value);
    if h.Err? {
      return Err(h.error);
    }
    r := OpenPacket(suite, pkt, h.value);
  }

  // ---------- Writing ----------

  /** An Initial packet before protection. */
  datatype Initial = Initial(
    version: Version, reserved: nat, dcid: bytes, scid: bytes, tokenExp: nat, token: bytes,
    lengthExp: nat, pn: nat, pnLen: nat, payload: bytes)
  {
    predicate Valid() {
      && reserved < 4 && |dcid| <= 20 && |scid| <= 20
      && VInt(|token|, tokenExp).Valid()
      && 1 <= pnLen <= 4 && pn < Pow256(pnLen)
      && Length() >= 20 && VInt(Length(), lengthExp).Valid()
    }

    /** The length field counts packet number, payload and tag. */
    function Length(): nat {
      pnLen + |payload| + 16
    }

    function FirstByte(): byte
      requires Valid()
    {
      192 + version.InitialType() * 16 + reserved * 4 + (pnLen - 1)
    }
  }

  function PutId(id: bytes, rest: bytes): bytes
    requires |id| <= 20
  {
    [|id|] + id + rest
  }

  /** Everything between the version and the packet number, in front of `rest`. */
  function PutFields(p: Initial, rest: bytes): bytes
    requires p.Valid()
  {
    PutId(p.dcid, PutId(p.scid,
      Put(VInt(|p.token|, p.tokenExp), p.token + Put(VInt(p.Length(), p.lengthExp), rest))))
  }

  function PutHeader(p: Initial, first: byte, rest: bytes): bytes
    requires p.Valid()
  {
    [first] + Be(p.version.Number(), 4) + PutFields(p, rest)
  }

  function SealedPayload(suite: Suite, p: Initial): (c: bytes)
    requires suite.Shaped() && suite.OpensSealed() && p.Valid()
    ensures |c| == |p.payload| + 16
  {
    var keys := suite.derive(p.version, p.dcid);
    suite.seal(keys.key, PaperNonce(keys.iv, p.pn), p.payload,
      PutHeader(p, p.FirstByte(), Be(p.pn, p.pnLen)))
  }

  /** The header-protection mask, sampled four bytes past the start of the packet number. */
  function MaskOf(suite: Suite, p: Initial): (m: bytes)
    requires suite.Shaped() && suite.OpensSealed() && p.Valid()
    ensures |m| == 16
  {
    var body := Be(p.pn, p.pnLen) + SealedPayload(suite, p);
    suite.mask(suite.derive(p.version, p.dcid).hp, body[4..20])
  }

  function MaskedFirst(suite: Suite, p: Initial): (b: byte)
    requires suite.Shaped() && suite.OpensSealed() && p.Valid()
    ensures b / 16 == 12 + p.version.InitialType()
  {
    FirstByteMasked(p, MaskOf(suite, p)[0] % 16);
    XorByte(p.FirstByte(), MaskOf(suite, p)[0] % 16)
  }

  function MaskedNumber(suite: Suite, p: Initial): (n: bytes)
    requires suite.Shaped() && suite.OpensSealed() && p.Valid()
    ensures |n| == p.pnLen
  {
    XorBytes(Be(p.pn, p.pnLen), MaskOf(suite, p)[1..])
  }

  function Protect(suite: Suite, p: Initial, rest: bytes): bytes
    requires suite.Shaped() && suite.OpensSealed() && p.Valid()
  {
    PutHeader(p, MaskedFirst(suite, p), MaskedNumber(suite, p) + SealedPayload(suite, p) + rest)
  }

  // ---------- Decryption inverts protection ----------

  /** The length of the header in front of the packet number. */
  function HeaderLength(p: Initial): nat
    requires p.Valid()
  {
    7 + |p.dcid| + |p.scid| + Width(p.tokenExp) + |p.token| + Width(p.lengthExp)
  }

  lemma IdWritten(id: bytes, rest: bytes)
    requires |id| <= 20
    ensures ConnectionId(PutId(id, rest)) == Some((id, rest))
    ensures |PutId(id, rest)| == 1 + |id| + |rest|
  {
    assert PutId(id, rest)[1..1 + |id|] == id;
    assert PutId(id, rest)[1 + |id|..] == rest;
  }

  lemma TokenWritten(token: bytes, exp: nat, rest: bytes)
    requires VInt(|token|, exp).Valid()
    ensures Token(Put(VInt(|token|, exp), token + rest)) == Some(rest)
  {
    var b := Put(VInt(|token|, exp), token + rest);
    ReadPut(VInt(|token|, exp), token + rest);
    assert b[Width(exp) + |token|..] == (token + rest)[|token|..] == rest;
  }

  lemma FirstByteFields(first: byte, t: nat)
    requires t < 4 && first / 16 == 12 + t
    ensures first / 128 == 1 && first / 64 % 2 == 1 && first / 16 % 4 == t
  {
  }

  lemma VersionRead(v: Version)
    ensures LookupVersion(FromBe(Be(v.Number(), 4))) == Some(v)
  {
    assert Pow256(4) == 0x1_0000_0000;
    FromBeOfBe(v.Number(), 4);
  }

  lemma PutAppend(x: VInt, a: bytes, b: bytes)
    requires x.Valid()
    ensures Put(x, a) + b == Put(x, a + b)
  {
    hide Encode;
  }

  lemma IdAppend(id: bytes, a: bytes, b: bytes)
    requires |id| <= 20
    ensures PutId(id, a) + b == PutId(id, a + b)
  {
  }

  lemma FieldsAppend(p: Initial, rest: bytes)
    requires p.Valid()
    ensures PutFields(p, []) + rest == PutFields(p, rest)
    ensures |PutFields(p, [])| == HeaderLength(p) - 5
  {
    var length := VInt(p.Length(), p.lengthExp);
    var tokenLen := VInt(|p.token|, p.tokenExp);
    hide VInt.Valid;
    PutAppend(length, [], rest);
    assert [] + rest == rest;
    hide Put;
    var a := Put(length, []);
    assert p.token + a + rest == p.token + (a + rest);
    PutAppend(tokenLen, p.token + a, rest);
    var b := Put(tokenLen, p.token + a);
    IdAppend(p.scid, b, rest);
    IdAppend(p.dcid, PutId(p.scid, b), rest);
    hide PutId;
    assert |PutId(p.dcid, PutId(p.scid, b))| == 2 + |p.dcid| + |p.scid| + |b| by {
      IdWritten(p.scid, b);
      IdWritten(p.dcid, PutId(p.scid, b));
    }
  }

  /** The header is a fixed-length prefix: only its first byte and what follows it vary. */
  lemma HeaderSplit(p: Initial, first: byte, rest: bytes, first': byte, rest': bytes)
    requires p.Valid()
    ensures var pkt := PutHeader(p, first, rest);
      && |pkt| == HeaderLength(p) + |rest|
      && pkt[0] == first
      && pkt[HeaderLength(p)..] == rest
      && [first'] + pkt[1..HeaderLength(p)] + rest' == PutHeader(p, first', rest')
  {
    FieldsAppend(p, rest);
    FieldsAppend(p, rest');
    hide PutFields;
    var fields := PutFields(p, []);
    var v := Be(p.version.Number(), 4);
    assert PutHeader(p, first, rest) == [first] + (v + fields) + rest;
    assert PutHeader(p, first', rest') == [first'] + (v + fields) + rest';
    hide PutHeader, Be;
    AroundMiddle([first], v + fields, rest);
  }

  lemma AroundMiddle(first: bytes, middle: bytes, rest: bytes)
    requires |first| == 1
    ensures var all := first + middle + rest;
      && all[0] == first[0] && all[1..1 + |middle|] == middle && all[1 + |middle|..] == rest
  {
  }

  lemma ReadFieldsOf(pkt: bytes, version: Version, dcid: bytes, b1: bytes, scid: bytes, b2: bytes,
                     b3: bytes, len: nat, w: nat)
    requires |pkt| >= 9 && len >= 20
    requires ConnectionId(pkt[5..]) == Some((dcid, b1))
    requires ConnectionId(b1) == Some((scid, b2))
    requires Token(b2) == Some(b3) && Read(b3) == Some((len, w))
    requires |b3| >= w + len
    ensures ReadFields(pkt, version)
         == Ok(Header(version, dcid, |pkt| - |b3| + w, |pkt| - |b3| + w + len))
  {
    hide Read, Token, ConnectionId;
  }

  lemma {:induction false} FieldsRead(p: Initial, pkt: bytes, rest: bytes)
    requires p.Valid() && |rest| >= p.Length()
    requires |pkt| == HeaderLength(p) + |rest| && pkt[5..] == PutFields(p, rest)
    ensures ReadFields(pkt, p.version)
         == Ok(Header(p.version, p.dcid, HeaderLength(p), HeaderLength(p) + p.Length()))
  {
    hide Read, VInt.Valid, PutId, ConnectionId, Token, Encode, ReadFields;
    hide Put;
    var length := VInt(p.Length(), p.lengthExp);
    var b3 := Put(length, rest);
    var b2 := Put(VInt(|p.token|, p.tokenExp), p.token + b3);
    var b1 := PutId(p.scid, b2);
    IdWritten(p.dcid, b1);
    IdWritten(p.scid, b2);
    TokenWritten(p.token, p.tokenExp, b3);
    ReadPut(length, rest);
    ReadFieldsOf(pkt, p.version, p.dcid, b1, p.scid, b2, b3, p.Length(), |b3| - |rest|);
  }

  lemma {:induction false} HeaderRead(p: Initial, first: byte, rest: bytes)
    requires p.Valid() && |rest| >= p.Length()
    requires first / 16 == 12 + p.version.InitialType()
    ensures ReadHeader(PutHeader(p, first, rest))
         == Ok(Header(p.version, p.dcid, HeaderLength(p), HeaderLength(p) + p.Length()))
  {
    hide PutFields, ReadFields, Initial.Valid, FromBe, LookupVersion, HeaderLength;
    var pkt := PutHeader(p, first, rest);
    HeaderSplit(p, first, rest, first, rest);
    assert pkt[5..] == PutFields(p, rest);
    FieldsRead(p, pkt, rest);
    VersionRead(p.version);
    FirstByteFields(first, p.version.InitialType());
    assert pkt[1..5] == Be(p.version.Number(), 4);
  }

  /** The bytes the mask is sampled from are not touched by the mask. */
  lemma SampleUnmasked(x: bytes, y: bytes, sealed: bytes, rest: bytes)
    requires |x| == |y| <= 4 && |x| + |sealed| >= 20
    ensures (x + sealed + rest)[4..20] == (y + sealed)[4..20]
  {
    assert (x + sealed + rest)[4..20] == sealed[4 - |x|..20 - |x|];
    assert (y + sealed)[4..20] == sealed[4 - |x|..20 - |x|];
  }

  lemma FirstByteMasked(p: Initial, m: byte)
    requires p.Valid() && m < 16
    ensures XorByte(p.FirstByte(), m) / 16 == 12 + p.version.InitialType()
    ensures XorByte(XorByte(p.FirstByte(), m), m) == p.FirstByte()
    ensures p.FirstByte() % 4 + 1 == p.pnLen
  {
    XorKeepsHighBits(p.FirstByte(), m);
    XorByteFacts(p.FirstByte(), m);
    XorByteTwice(p.FirstByte(), m);
    hide XorByte;
    FirstByteParts(p);
  }

  lemma XorByteTwice(a: byte, m: byte)
    ensures XorByte(XorByte(a, m), m) == a
  {
    XorByteFacts(a, m);
    hide Xor;
  }

  lemma FirstByteParts(p: Initial)
    requires p.Valid()
    ensures p.FirstByte() / 16 == 12 + p.version.InitialType() && p.FirstByte() % 4 + 1 == p.pnLen
  {
    hide Pow256;
    var low := p.reserved * 4 + (p.pnLen - 1);
    assert 0 <= low < 16;
  }

  /** Header protection comes off a packet whose protected part is in place, and the
      payload opens under the original header. */
  lemma OpenInvertsSeal(suite: Suite, p: Initial, pkt: bytes, h: Header)
    requires suite.Shaped() && suite.OpensSealed() && p.Valid()
    requires 0 < h.pnOffset && h.pnOffset + 20 <= h.end <= |pkt|
    requires h.version == p.version && h.dcid == p.dcid
    requires pkt[0] == MaskedFirst(suite, p)
    requires pkt[h.pnOffset..h.end] == MaskedNumber(suite, p) + SealedPayload(suite, p)
    requires [p.FirstByte()] + pkt[1..h.pnOffset] + Be(p.pn, p.pnLen)
          == PutHeader(p, p.FirstByte(), Be(p.pn, p.pnLen))
    ensures OpenAt(suite, pkt, h) == Ok((p.payload, h.end))
  {
    hide PutHeader, XorByte, XorBytes, Nonce, PaperNonce, Be, FromBe;
    PowersGrow(p.pnLen, 8);
    NonceIsPadded(suite.derive(p.version, p.dcid).iv, p.pn);
    var mask := MaskOf(suite, p);
    var pn := Be(p.pn, p.pnLen);
    var sealed := SealedPayload(suite, p);
    var hidden := MaskedNumber(suite, p);
    var body := pkt[h.pnOffset..h.end];
    FirstByteMasked(p, mask[0] % 16);
    XorBytesCancel(pn, mask[1..]);
    FromBeOfBe(p.pn, p.pnLen);
    SampleUnmasked(hidden, pn, sealed, []);
    assert hidden + sealed + [] == hidden + sealed;
    assert body[..p.pnLen] == hidden && body[p.pnLen..] == sealed;
  }

  /** For every v1 or v2 Initial packet, whatever follows it in the datagram, decryption
      gives back the payload and consumes exactly that packet. */
  lemma DecryptInvertsProtect(suite: Suite, p: Initial, rest: bytes)
    requires suite.Shaped() && suite.OpensSealed() && p.Valid()
    ensures var pkt := Protect(suite, p, rest);
      && Decrypt(suite, pkt) == Ok((p.payload, HeaderLength(p) + p.Length()))
      && pkt[HeaderLength(p) + p.Length()..] == rest
  {
    hide Suite.Shaped, Suite.OpensSealed, MaskOf, MaskedFirst, MaskedNumber, SealedPayload, Be, XorByte,
      OpenAt, PutHeader, HeaderLength, Initial.Valid, Initial.FirstByte, ReadHeader;
    ProtectedLayout(p, MaskedFirst(suite, p), MaskedNumber(suite, p), SealedPayload(suite, p), rest,
      Be(p.pn, p.pnLen));
    OpenInvertsSeal(suite, p, Protect(suite, p, rest),
      Header(p.version, p.dcid, HeaderLength(p), HeaderLength(p) + p.Length()));
  }

  /** How a protected packet starts: a long header with the fixed bit and the Initial type of its
      version, and the version number of section 15 of RFC 9000 or section 3.1 of RFC 9369. */
  lemma {:induction false} ProtectedStart(suite: Suite, p: Initial, rest: bytes)
    requires suite.Shaped() && suite.OpensSealed() && p.Valid()
    ensures var pkt := Protect(suite, p, rest);
      && |pkt| > 5 && pkt[0] / 16 == (if p.version == V1 then 0xC else 0xD)
      && pkt[1..5] == if p.version == V1 then [0, 0, 0, 1] else [0x6b, 0x33, 0x43, 0xcf]
  {
    hide Suite.Shaped, Suite.OpensSealed, MaskOf, MaskedNumber, SealedPayload, XorByte, PutFields, Initial.Valid, Be;
    VersionBytes(p.version);
    var pkt := Protect(suite, p, rest);
    HeaderSplit(p, MaskedFirst(suite, p), MaskedNumber(suite, p) + SealedPayload(suite, p) + rest, 0, []);
    assert pkt[0] == MaskedFirst(suite, p);
    assert pkt[1..5] == Be(p.version.Number(), 4);
  }

  lemma VersionBytes(v: Version)
    ensures Be(v.Number(), 4) == if v == V1 then [0, 0, 0, 1] else [0x6b, 0x33, 0x43, 0xcf]
  {
    var n := v.Number();
    var b := Be(n, 4);
    BeByte(n, 4, 0);
    BeByte(n, 4, 1);
    BeByte(n, 4, 2);
    BeByte(n, 4, 3);
    assert Pow256(0) == 1 && Pow256(1) == 256 && Pow256(2) == 65536 && Pow256(3) == 16777216;
    assert b == [b[0], b[1], b[2], b[3]];
    hide Be, Pow256;
    assert b[0] == n / 16777216 % 256 && b[1] == n / 65536 % 256 && b[2] == n / 256 % 256 && b[3] == n % 256;
  }

  lemma {:induction false} ProtectedLayout(p: Initial, first: byte, hidden: bytes, sealed: bytes, rest: bytes,
                                           pn: bytes)
    requires p.Valid() && |hidden| == p.pnLen && |sealed| == |p.payload| + 16
    requires first / 16 == 12 + p.version.InitialType()
    ensures var pkt := PutHeader(p, first, hidden + sealed + rest);
      var at := HeaderLength(p);
      var end := at + p.Length();
      && ReadHeader(pkt) == Ok(Header(p.version, p.dcid, at, end))
      && end <= |pkt| && pkt[0] == first
      && pkt[at..end] == hidden + sealed && pkt[end..] == rest
      && [p.FirstByte()] + pkt[1..at] + pn == PutHeader(p, p.FirstByte(), pn)
  {
    hide PutHeader, HeaderLength, Initial.Valid, Initial.FirstByte, ReadHeader;
    var tail := hidden + sealed + rest;
    HeaderRead(p, first, tail);
    HeaderSplit(p, first, tail, p.FirstByte(), pn);
    TailSlices(PutHeader(p, first, tail), HeaderLength(p), hidden, sealed, rest);
  }

  lemma TailSlices(pkt: bytes, at: nat, x: bytes, y: bytes, rest: bytes)
    requires at <= |pkt| && pkt[at..] == x + y + rest
    ensures at + |x| + |y| <= |pkt|
    ensures pkt[at..at + |x| + |y|] == x + y
    ensures pkt[at + |x| + |y|..] == rest
  {
    assert pkt[at..at + |x| + |y|] == pkt[at..][..|x| + |y|];
    assert pkt[at + |x| + |y|..] == pkt[at..][|x| + |y|..];
  }

  // ---------- What is refused ----------

  lemma {:induction false} VersionOfBytes(b: bytes)
    requires |b| == 4
    ensures LookupVersion(FromBe(b)) == if b == [0, 0, 0, 1] then Some(V1)
      else if b == [0x6b, 0x33, 0x43, 0xcf] then Some(V2) else None
  {
    VersionBytes(V1);
    VersionBytes(V2);
    BeOfFromBe(b);
    VersionRead(V1);
    VersionRead(V2);
    hide Be, FromBe;
  }

  /** Which error a packet gets: too short, not a long header with the fixed bit, or of another type
      than Initial: not an Initial packet; of another version: unsupported; everything else that is
      wrong with it: malformed. */
  lemma {:induction false} HeaderErrors(pkt: bytes)
    ensures |pkt| < 9 ==> ReadHeader(pkt) == Err(NotInitial)
    ensures |pkt| >= 9 ==>
      var version := pkt[1..5];
      if pkt[0] < 192 then ReadHeader(pkt) == Err(NotInitial)
      else if version != [0, 0, 0, 1] && version != [0x6b, 0x33, 0x43, 0xcf] then
        ReadHeader(pkt) == Err(UnsupportedVersion)
      else if (pkt[0] - 192) / 16 != (if version == [0, 0, 0, 1] then 0 else 1) then
        ReadHeader(pkt) == Err(NotInitial)
      else ReadHeader(pkt).Ok? || ReadHeader(pkt) == Err(Malformed)
  {
    hide LookupVersion, FromBe, Read, Token, ConnectionId;
    if |pkt| >= 9 {
      VersionOfBytes(pkt[1..5]);
      HeaderBits(pkt[0]);
    }
  }

  lemma HeaderBits(first: byte)
    ensures first / 128 == 0 || first / 64 % 2 == 0 <==> first < 192
    ensures first >= 192 ==> first / 16 % 4 == (first - 192) / 16
  {
  }
}

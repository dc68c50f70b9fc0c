/** Frames of an Initial packet, section 19 of RFC 9000: what the decoder reads out of a
    decrypted payload, and the encoder it has to invert. */
module QuicFrames {
  import opened Bytes
  import opened Common
  import opened Varint

  /** One CRYPTO frame as it is handed to the reassembly buffer. */
  datatype Offer = Offer(off: nat, data: bytes)

  /** The offers made before parsing stopped, and whether it stopped without an error. */
  datatype Parsed = Parsed(offers: seq<Offer>, ok: bool)

  // ---------- Decoder side ----------

  function SkipZeros(b: bytes): (r: bytes)
    ensures |r| <= |b| && r == b[|b| - |r|..]
  {
    if b != [] && b[0] == 0 then SkipZeros(b[1..]) else b
  }

  function SkipVarints(b: bytes, n: nat): (r: Option<bytes>)
    ensures r.Some? ==> |r.value| + n <= |b|
  {
    if n == 0 then Some(b)
    else
      match Read(b)
      case None => None
      case Some((_, w)) => SkipVarints(b[w..], n - 1)
  }

  /** An ACK body: two varints, the range count, one more varint, two varints a range,
      and three more when the frame carries ECN counts. */
  function SkipAck(b: bytes, ecn: bool): (r: Option<bytes>)
    ensures r.Some? ==> |r.value| <= |b|
  {
    var head := SkipVarints(b, 2);
    if head.None? then None
    else
      var count := Read(head.value);
      if count.None? then None
      else
        var ranges := SkipVarints(head.value[count.value.1..], 1);
        if ranges.None? || count.value.0 > |ranges.value| then None
        else SkipVarints(ranges.value, 2 * count.value.0 + if ecn then 3 else 0)
  }

  /** The walk over the payload: CRYPTO frames are offered in order, CONNECTION_CLOSE and
      unknown types end it quietly, anything cut short ends it with an error. */
  function Parse(payload: bytes): Parsed
    decreases |payload|
  {
    if payload == [] then Parsed([], true)
    else
      var typ := Read(payload);
      if typ.None? then Parsed([], false)
      else
        var rest := payload[typ.value.1..];
        match typ.value.0
        case 0x00 => Parse(SkipZeros(rest))
        case 0x01 => Parse(rest)
        case 0x02 => ParseAfter(SkipAck(rest, false), payload)
        case 0x03 => ParseAfter(SkipAck(rest, true), payload)
        case 0x06 => ParseCrypto(rest, payload)
        case _ => Parsed([], true)
  }

  function ParseAfter(rest: Option<bytes>, payload: bytes): Parsed
    requires rest.Some? ==> |rest.value| < |payload|
    decreases |payload|, 0
  {
    if rest.None? then Parsed([], false) else Parse(rest.value)
  }

  /** A CRYPTO frame body: offset, length, data, and what follows. */
  function NextCrypto(b: bytes): (r: Option<(Offer, bytes)>)
    ensures r.Some? ==> |r.value.1| <= |b|
  {
    var off := Read(b);
    if off.None? then None
    else
      var len := Read(b[off.value.1..]);
      if len.None? then None
      else
        var body := b[off.value.1 + len.value.1..];
        if len.value.0 > |body| then None
        else Some((Offer(off.value.0, body[..len.value.0]), body[len.value.0..]))
  }

  function ParseCrypto(b: bytes, payload: bytes): Parsed
    requires |b| < |payload|
    decreases |payload|, 0
  {
    match NextCrypto(b)
    case None => Parsed([], false)
    case Some((offer, rest)) =>
      var more := Parse(rest);
      Parsed([offer] + more.offers, more.ok)
  }

  method CutCrypto(b: bytes) returns (off: nat, data: bytes, rest: bytes, ok: bool)
    ensures (if ok then Some((Offer(off, data), rest)) else None) == NextCrypto(b)
  {
    var n1, n2, ln;
    off, n1, ok := ReadVarint(b);
    if !ok {
      return 0, [], [], false;
    }
    ln, n2, ok := ReadVarint(b[n1..]);
    if !ok {
      return 0, [], [], false;
    }
    var body := b[n1 + n2..];
    if ln > |body| {
      return 0, [], [], false;
    }
    return off, body[..ln], body[ln..], true;
  }

  method SkipVarintLoop(b: bytes, n: nat) returns (rest: bytes, ok: bool)
    ensures (if ok then Some(rest) else None) == SkipVarints(b, n)
  {
    rest := b;
    var i := 0;
    while i < n
      invariant 0 <= i <= n
      invariant SkipVarints(b, n) == SkipVarints(rest, n - i)
    {
      var _, w, found := ReadVarint(rest);
      if !found {
        return [], false;
      }
      rest := rest[w..];
      i := i + 1;
    }
    return rest, true;
  }

  method SkipAckBody(b: bytes, ecn: bool) returns (rest: bytes, ok: bool)
    ensures (if ok then Some(rest) else None) == SkipAck(b, ecn)
  {
    hide Read, SkipVarints;
    rest, ok := SkipVarintLoop(b, 2);
    if !ok {
      return [], false;
    }
    var rangeCount, w, found := ReadVarint(rest);
    if !found {
      return [], false;
    }
    rest, ok := SkipVarintLoop(rest[w..], 1);
    if !ok || rangeCount > |rest| {
      return [], false;
    }
    rest, ok := SkipVarintLoop(rest, 2 * rangeCount + if ecn then 3 else 0);
  }

  // ---------- Encoder side ----------
  //
  // Every writer puts its bytes in front of what follows.

  datatype AckRange = AckRange(gap: VInt, length: VInt) {
    predicate Valid() { gap.Valid() && length.Valid() }
  }

  datatype Ecn = Ecn(ect0: VInt, ect1: VInt, ce: VInt) {
    predicate Valid() { ect0.Valid() && ect1.Valid() && ce.Valid() }
  }

  datatype Frame =
    | Padding
    | Ping
    | Ack(largest: VInt, delay: VInt, countExp: nat, first: VInt, ranges: seq<AckRange>, ecn: Option<Ecn>)
    | Crypto(off: VInt, lenExp: nat, data: bytes)
  {
    predicate Valid() {
      match this
      case Padding => true
      case Ping => true
      case Ack(largest, delay, countExp, first, ranges, ecn) =>
        && largest.Valid() && delay.Valid() && first.Valid()
        && VInt(|ranges|, countExp).Valid()
        && ValidRanges(ranges)
        && (ecn.Some? ==> ecn.value.Valid())
      case Crypto(off, lenExp, data) =>
        off.Valid() && VInt(|data|, lenExp).Valid()
    }
  }

  predicate ValidRanges(rs: seq<AckRange>) {
    rs == [] || (rs[0].Valid() && ValidRanges(rs[1..]))
  }

  predicate ValidFrames(fs: seq<Frame>) {
    fs == [] || (fs[0].Valid() && ValidFrames(fs[1..]))
  }

  function PutRanges(rs: seq<AckRange>, rest: bytes): (b: bytes)
    requires ValidRanges(rs)
    ensures |b| >= 2 * |rs| + |rest|
  {
    if rs == [] then rest else Put(rs[0].gap, Put(rs[0].length, PutRanges(rs[1..], rest)))
  }

  function PutEcn(ecn: Option<Ecn>, rest: bytes): (b: bytes)
    requires ecn.Some? ==> ecn.value.Valid()
  {
    match ecn
    case None => rest
    case Some(e) => Put(e.ect0, Put(e.ect1, Put(e.ce, rest)))
  }

  function PutAckBody(f: Frame, rest: bytes): bytes
    requires f.Ack? && f.Valid()
  {
    Put(f.largest, Put(f.delay, Put(VInt(|f.ranges|, f.countExp),
      Put(f.first, PutRanges(f.ranges, PutEcn(f.ecn, rest))))))
  }

  function PutFrame(f: Frame, rest: bytes): bytes
    requires f.Valid()
  {
    match f
    case Padding => [0x00] + rest
    case Ping => [0x01] + rest
    case Ack(_, _, _, _, _, ecn) => [if ecn.None? then 0x02 else 0x03] + PutAckBody(f, rest)
    case Crypto(off, lenExp, data) => [0x06] + Put(off, Put(VInt(|data|, lenExp), data + rest))
  }

  function PutFrames(fs: seq<Frame>, rest: bytes): bytes
    requires ValidFrames(fs)
  {
    if fs == [] then rest else PutFrame(fs[0], PutFrames(fs[1..], rest))
  }

  function OfferOf(f: Frame): seq<Offer> {
    if f.Crypto? then [Offer(f.off.v, f.data)] else []
  }

  /** The CRYPTO frames of a list, in order. */
  function Offers(fs: seq<Frame>): seq<Offer> {
    if fs == [] then [] else OfferOf(fs[0]) + Offers(fs[1..])
  }

  // ---------- The parser inverts the encoder ----------

  lemma SkipOne(x: VInt, rest: bytes, n: nat)
    requires x.Valid() && n > 0
    ensures SkipVarints(Put(x, rest), n) == SkipVarints(rest, n - 1)
  {
    ReadPut(x, rest);
  }

  lemma SkipTwo(x: VInt, y: VInt, rest: bytes, n: nat)
    requires x.Valid() && y.Valid() && n > 1
    ensures SkipVarints(Put(x, Put(y, rest)), n) == SkipVarints(rest, n - 2)
  {
    SkipOne(x, Put(y, rest), n);
    SkipOne(y, rest, n - 1);
  }

  lemma {:induction false} SkipRanges(rs: seq<AckRange>, rest: bytes, n: nat)
    requires ValidRanges(rs)
    requires n >= 2 * |rs|
    ensures SkipVarints(PutRanges(rs, rest), n) == SkipVarints(rest, n - 2 * |rs|)
  {
    hide Put, Read, VInt.Valid;
    if rs != [] {
      SkipTwo(rs[0].gap, rs[0].length, PutRanges(rs[1..], rest), n);
      SkipRanges(rs[1..], rest, n - 2);
    }
  }

  lemma SkipEcn(ecn: Option<Ecn>, rest: bytes)
    requires ecn.Some? ==> ecn.value.Valid()
    ensures SkipVarints(PutEcn(ecn, rest), if ecn.Some? then 3 else 0) == Some(rest)
  {
    if ecn.Some? {
      var e := ecn.value;
      SkipOne(e.ect0, Put(e.ect1, Put(e.ce, rest)), 3);
      SkipOne(e.ect1, Put(e.ce, rest), 2);
      SkipOne(e.ce, rest, 1);
    }
  }

  lemma SkipEncodedAck(f: Frame, rest: bytes)
    requires f.Ack? && f.Valid()
    ensures SkipAck(PutAckBody(f, rest), f.ecn.Some?) == Some(rest)
  {
    hide Put, Read, VInt.Valid;
    var ranges := PutRanges(f.ranges, PutEcn(f.ecn, rest));
    var count := Put(VInt(|f.ranges|, f.countExp), Put(f.first, ranges));
    SkipTwo(f.largest, f.delay, count, 2);
    ReadPut(VInt(|f.ranges|, f.countExp), Put(f.first, ranges));
    SkipOne(f.first, ranges, 1);
    SkipRanges(f.ranges, PutEcn(f.ecn, rest), 2 * |f.ranges| + if f.ecn.Some? then 3 else 0);
    SkipEcn(f.ecn, rest);
  }

  lemma ParseStep(t: byte, rest: bytes)
    requires t < 64
    ensures t == 0 ==> Parse([t] + rest) == Parse(SkipZeros(rest))
    ensures t == 1 ==> Parse([t] + rest) == Parse(rest)
    ensures t == 2 || t == 3 ==>
      var after := SkipAck(rest, t == 3);
      Parse([t] + rest) == if after.None? then Parsed([], false) else Parse(after.value)
    ensures t == 6 ==> Parse([t] + rest) == ParseCrypto(rest, [t] + rest)
  {
    ReadOneByte(t, rest);
  }

  /** A padding byte changes nothing about what follows it. */
  lemma {:induction false} ParsePadding(rest: bytes)
    ensures Parse([0] + rest) == Parse(rest)
  {
    hide Parse, SkipAck, ParseCrypto;
    ParseStep(0, rest);
    if rest != [] && rest[0] == 0 {
      assert rest == [0] + rest[1..];
      ParseStep(0, rest[1..]);
      assert SkipZeros(rest) == SkipZeros(rest[1..]);
    } else {
      assert SkipZeros(rest) == rest;
    }
  }

  lemma ParsePutCrypto(f: Frame, rest: bytes)
    requires f.Crypto? && f.Valid()
    ensures Parse(PutFrame(f, rest))
         == (var more := Parse(rest); Parsed([Offer(f.off.v, f.data)] + more.offers, more.ok))
  {
    var len := VInt(|f.data|, f.lenExp);
    var body := f.data + rest;
    var b := Put(f.off, Put(len, body));
    ParseStep(6, b);
    ReadPut(f.off, Put(len, body));
    ReadPut(len, body);
    assert b[Width(f.off.exp) + Width(f.lenExp)..] == b[Width(f.off.exp)..][Width(f.lenExp)..];
    assert body[..|f.data|] == f.data && body[|f.data|..] == rest;
  }

  lemma ParsePutFrame(f: Frame, rest: bytes)
    requires f.Valid()
    ensures Parse(PutFrame(f, rest))
         == (var more := Parse(rest); Parsed(OfferOf(f) + more.offers, more.ok))
  {
    match f
    case Padding => ParsePadding(rest);
    case Ping => ParseStep(1, rest);
    case Ack(_, _, _, _, _, ecn) =>
      ParseStep(if ecn.None? then 2 else 3, PutAckBody(f, rest));
      SkipEncodedAck(f, rest);
    case Crypto(_, _, _) => ParsePutCrypto(f, rest);
  }

  /** For every list of valid frames the parser makes exactly the offers of its CRYPTO
      frames, in order, and goes on with whatever follows the list. */
  lemma {:induction false} ParseInvertsPut(fs: seq<Frame>, tail: bytes)
    requires ValidFrames(fs)
    ensures Parse(PutFrames(fs, tail))
         == (var more := Parse(tail); Parsed(Offers(fs) + more.offers, more.ok))
  {
    hide Parse, PutFrame;
    if fs != [] {
      ParsePutFrame(fs[0], PutFrames(fs[1..], tail));
      ParseInvertsPut(fs[1..], tail);
      var more := Parse(tail).offers;
      assert OfferOf(fs[0]) + (Offers(fs[1..]) + more) == OfferOf(fs[0]) + Offers(fs[1..]) + more;
    }
  }

  /** The whole payload is consumed: nothing is left over and no error is raised. */
  lemma {:induction false} ParseWholePayload(fs: seq<Frame>)
    requires ValidFrames(fs)
    ensures Parse(PutFrames(fs, [])) == Parsed(Offers(fs), true)
  {
    ParseInvertsPut(fs, []);
  }

  /** A frame of any other type, CONNECTION_CLOSE included, ends the walk without an error. */
  lemma {:induction false} OtherFrameEnds(typ: VInt, rest: bytes)
    requires typ.Valid() && typ.v !in {0x00, 0x01, 0x02, 0x03, 0x06}
    ensures Parse(Put(typ, rest)) == Parsed([], true)
  {
    ReadPut(typ, rest);
    hide Read, Put, SkipAck, ParseCrypto;
  }

  /** A CRYPTO frame that announces more data than there is ends it with an error. */
  lemma {:induction false} ShortCryptoFails(off: VInt, len: VInt, data: bytes)
    requires off.Valid() && len.Valid() && len.v > |data|
    ensures Parse([6] + Put(off, Put(len, data))) == Parsed([], false)
  {
    var b := Put(off, Put(len, data));
    ParseStep(6, b);
    ReadPut(off, Put(len, data));
    ReadPut(len, data);
    hide Read, Put, Parse;
    assert b[Width(off.exp) + Width(len.exp)..] == b[Width(off.exp)..][Width(len.exp)..];
  }
}

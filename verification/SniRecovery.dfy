/** End to end: a ClientHello cut into CRYPTO fragments and carried in protected Initial
    packets gives back its server name. */
module SniRecovery {
  import opened Bytes
  import opened Common
  import opened CryptoStream
  import opened InitialPacket
  import opened QuicFrames
  import opened QuicSni
  import CH = ClientHello

  /** An Initial packet whose payload is a list of frames. */
  datatype Carrier = Carrier(packet: Initial, frames: seq<Frame>) {
    predicate Valid() {
      packet.Valid() && ValidFrames(frames) && packet.payload == PutFrames(frames, [])
    }
  }

  predicate ValidCarriers(cs: seq<Carrier>) {
    cs == [] || (cs[0].Valid() && ValidCarriers(cs[1..]))
  }

  /** The packets coalesced into one datagram in front of `tail`. */
  function Datagram(suite: Suite, cs: seq<Carrier>, tail: bytes): bytes
    requires suite.Shaped() && suite.OpensSealed() && ValidCarriers(cs)
  {
    if cs == [] then tail else Protect(suite, cs[0].packet, Datagram(suite, cs[1..], tail))
  }

  function Carried(cs: seq<Carrier>): seq<Offer> {
    if cs == [] then [] else Offers(cs[0].frames) + Carried(cs[1..])
  }

  /** The walk over a datagram opens every Initial packet in it and collects all their
      CRYPTO frames in order; a trailing packet it cannot open ends it quietly. */
  lemma {:induction false} AbsorbDatagram(suite: Suite, st: State, cs: seq<Carrier>, tail: bytes, saw: bool)
    requires suite.Shaped() && suite.OpensSealed() && ValidCarriers(cs)
    requires saw || cs != []
    requires tail == [] || Decrypt(suite, tail).Err?
    ensures Absorb(suite, st, Datagram(suite, cs, tail), saw)
         == (State(AddAll(st.buffer, Carried(cs)), st.packets + |cs|, st.done), None)
    decreases cs
  {
    hide Suite.Shaped, Suite.OpensSealed, Decrypt, Protect, Parse, PutFrames, Initial.Valid, HeaderLength;
    if cs != [] {
      var p := cs[0].packet;
      var rest := Datagram(suite, cs[1..], tail);
      DecryptInvertsProtect(suite, p, rest);
      ParseWholePayload(cs[0].frames);
      AddAllConcat(st.buffer, Offers(cs[0].frames), Carried(cs[1..]));
      AbsorbDatagram(suite, Collect(st, p.payload), cs[1..], tail, true);
    }
  }

  lemma BigEndian3(n: nat)
    requires n < 0x100_0000
    ensures var b := Be(n, 3);
      (b[0] as int) * 65536 + (b[1] as int) * 256 + b[2] == n
  {
    assert Be(n, 3) == Be(n / 256, 2) + [n % 256];
    assert Be(n / 256, 2) == Be(n / 256 / 256, 1) + [n / 256 % 256];
    assert Be(n / 256 / 256, 1) == Be(n / 256 / 256 / 256, 0) + [n / 256 / 256 % 256];
  }

  lemma SerialisedIsComplete(h: CH.Hello)
    requires h.Valid()
    ensures CompleteHello(CH.Serialise(h)) == Some(CH.Serialise(h))
    ensures HelloLength(CH.Serialise(h)) == |CH.Serialise(h)|
  {
    var body := h.version + h.random + CH.Tail(h, []);
    assert |body| < 0x100_0000;
    hide CH.Tail, CH.Hello.Valid;
    BigEndian3(|body|);
    var m := CH.Serialise(h);
    assert m == [1] + Be(|body|, 3) + body;
    assert m[1] == Be(|body|, 3)[0] && m[2] == Be(|body|, 3)[1] && m[3] == Be(|body|, 3)[2];
    assert m[..|m|] == m;
  }

  predicate InRange(order: seq<nat>, n: nat) {
    order == [] || (order[0] < n && InRange(order[1..], n))
  }

  lemma {:induction false} InRangeAll(order: seq<nat>, n: nat)
    requires InRange(order, n)
    ensures forall i | 0 <= i < |order| :: order[i] < n
  {
    if order != [] {
      InRangeAll(order[1..], n);
      assert forall i | 0 < i < |order| :: order[i] == order[1..][i - 1];
    }
  }

  /** The CRYPTO frames a delivery schedule makes out of a cut. */
  function Delivered(frags: seq<bytes>, order: seq<nat>): seq<Offer>
    requires InRange(order, |frags|)
  {
    InRangeAll(order, |frags|);
    Delivery(frags, order)
  }

  lemma {:induction false} DeliveredConcat(frags: seq<bytes>, before: seq<nat>, now: seq<nat>)
    requires InRange(before, |frags|) && InRange(now, |frags|)
    ensures InRange(before + now, |frags|)
    ensures Delivered(frags, before + now) == Delivered(frags, before) + Delivered(frags, now)
  {
    if before == [] {
      assert before + now == now;
      assert Delivered(frags, before) == [];
    } else {
      var all := before + now;
      assert all[1..] == before[1..] + now;
      DeliveredConcat(frags, before[1..], now);
      assert Delivered(frags, all) == [Fragment(frags, all[0])] + Delivered(frags, all[1..]);
    }
  }

  /** A datagram fed to a decoder that is still waiting. */
  lemma {:induction false} FedDatagram(suite: Suite, st: State, cs: seq<Carrier>, tail: bytes)
    requires suite.Shaped() && suite.OpensSealed() && ValidCarriers(cs) && cs != []
    requires tail == [] || Decrypt(suite, tail).Err?
    requires CryptoStream.Valid(st.buffer) && !st.done && st.packets < MAX_INITIAL_PACKETS
    ensures NoEmpty(AddAll(st.buffer, Carried(cs)).segments)
    ensures Fed(suite, st, Datagram(suite, cs, tail))
         == Finish(State(AddAll(st.buffer, Carried(cs)), st.packets + |cs|, false))
  {
    hide Suite.Shaped, Suite.OpensSealed, Decrypt, Datagram, Absorb, CryptoStream.Valid, AddAll, Finish;
    AddAllKeepsValid(st.buffer, Carried(cs));
    ValidHasNoEmpty(AddAll(st.buffer, Carried(cs)));
    AbsorbDatagram(suite, st, cs, tail, false);
  }

  /** The limit on Initial packets is looked at once a datagram, before the packets in it
      are counted: it is kept exactly when the datagram does not carry too many. */
  lemma {:induction false} PacketLimitKeptIff(suite: Suite, st: State, cs: seq<Carrier>, tail: bytes)
    requires suite.Shaped() && suite.OpensSealed() && ValidCarriers(cs) && cs != []
    requires tail == [] || Decrypt(suite, tail).Err?
    requires CryptoStream.Valid(st.buffer) && !st.done && st.packets < MAX_INITIAL_PACKETS
    ensures Fed(suite, st, Datagram(suite, cs, tail)).0.packets <= MAX_INITIAL_PACKETS
       <==> st.packets + |cs| <= MAX_INITIAL_PACKETS
  {
    hide Suite.Shaped, Suite.OpensSealed, Decrypt, Datagram, Fed, CryptoStream.Valid, AddAll, ValidCarriers;
    FedDatagram(suite, st, cs, tail);
  }

  /** A hello whose first server_name extension starts with a valid host_name entry. */
  predicate Names(h: CH.Hello, es: seq<CH.NameEntry>) {
    && h.Valid() && CH.ValidEntries(es) && |CH.PutEntries(es)| < 65536
    && CH.FirstServerName(h.extensions) == Ok(CH.ServerNameBody(es))
    && es != [] && es[0].typ == 0 && CH.ValidHost(es[0].name)
  }

  ghost function Covered(frags: seq<bytes>, order: seq<nat>): nat {
    Start(frags, FirstMissing(frags, Elements(order), 0))
  }

  lemma FinishDelivered(h: CH.Hello, es: seq<CH.NameEntry>, frags: seq<bytes>, order: seq<nat>, packets: nat)
    requires Names(h, es) && IsCut(frags) && Concat(frags) == CH.Serialise(h)
    requires InRange(order, |frags|)
    ensures var b := AddAll(EMPTY, Delivered(frags, order));
      var found := Covered(frags, order) >= |CH.Serialise(h)|;
      && NoEmpty(b.segments)
      && Finish(State(b, packets, false))
          == (State(b, packets, found), Ok(if found then Some(CH.Lower(es[0].name)) else None))
  {
    hide CompleteHello, CH.Serialise, CH.QuicSni, CH.Hello.Valid, CH.ServerNameBody, IsCut, Delivery, AddAll;
    InRangeAll(order, |frags|);
    SerialisedIsComplete(h);
    CH.BothRecoverHost(h, es, []);
    HelloExactlyWhenCovered(frags, order);
  }

  /** One step of any run: fragments `before` have arrived, this datagram carries `now` in
      its CRYPTO frames between padding, pings and acknowledgements. The lower-cased host
      is reported exactly when the fragments contiguous from offset zero cover the hello;
      otherwise the decoder waits, and the next step starts from `before + now`. */
  lemma {:induction false} NameReportedExactlyWhenCovered(
    suite: Suite, h: CH.Hello, es: seq<CH.NameEntry>, frags: seq<bytes>,
    before: seq<nat>, now: seq<nat>, packets: nat, cs: seq<Carrier>, tail: bytes)
    requires suite.Shaped() && suite.OpensSealed()
    requires Names(h, es) && IsCut(frags) && Concat(frags) == CH.Serialise(h)
    requires InRange(before, |frags|) && InRange(now, |frags|) && InRange(before + now, |frags|)
    requires packets < MAX_INITIAL_PACKETS
    requires cs != [] && ValidCarriers(cs) && Carried(cs) == Delivered(frags, now)
    requires tail == [] || Decrypt(suite, tail).Err?
    ensures CryptoStream.Valid(AddAll(EMPTY, Delivered(frags, before)))
    ensures var st := State(AddAll(EMPTY, Delivered(frags, before)), packets, false);
      var found := Covered(frags, before + now) >= |CH.Serialise(h)|;
      Fed(suite, st, Datagram(suite, cs, tail))
        == (State(AddAll(EMPTY, Delivered(frags, before + now)), packets + |cs|, found),
            Ok(if found then Some(CH.Lower(es[0].name)) else None))
  {
    hide Suite.Shaped, Suite.OpensSealed, Decrypt, Datagram, Fed, Finish, Delivered, IsCut, Names,
      CryptoStream.Valid, CH.Serialise, AddAll, Covered, ValidCarriers, Carried, InRange, Concat, CH.Lower;
    ReachedIsValid(Delivered(frags, before));
    FedDatagram(suite, State(AddAll(EMPTY, Delivered(frags, before)), packets, false), cs, tail);
    DeliveredConcat(frags, before, now);
    AddAllConcat(EMPTY, Delivered(frags, before), Delivered(frags, now));
    FinishDelivered(h, es, frags, before + now, packets + |cs|);
  }

  // ---------- Whole deliveries ----------

  /** One datagram of the client: the Initial packets in it, what follows them, and which fragments
      their CRYPTO frames carry. */
  datatype Sent = Sent(datagram: bytes, cs: seq<Carrier>, tail: bytes, now: seq<nat>)

  predicate Carries(suite: Suite, frags: seq<bytes>, x: Sent)
    requires suite.Shaped() && suite.OpensSealed()
  {
    && x.cs != [] && ValidCarriers(x.cs) && InRange(x.now, |frags|) && Carried(x.cs) == Delivered(frags, x.now)
    && (x.tail == [] || Decrypt(suite, x.tail).Err?) && x.datagram == Datagram(suite, x.cs, x.tail)
  }

  ghost predicate AllCarry(suite: Suite, frags: seq<bytes>, sent: seq<Sent>)
    requires suite.Shaped() && suite.OpensSealed()
  {
    forall i | 0 <= i < |sent| :: Carries(suite, frags, sent[i])
  }

  /** The decoder after a list of datagrams, and what it answered to each. */
  ghost function FedAll(suite: Suite, sent: seq<Sent>): (r: (State, seq<FeedResult>))
    requires suite.Shaped()
    ensures CryptoStream.Valid(r.0.buffer) && |r.1| == |sent|
  {
    if sent == [] then EmptyIsValid(); (State(EMPTY, 0, false), [])
    else
      var (st, answers) := FedAll(suite, sent[..|sent| - 1]);
      var (next, answer) := Fed(suite, st, sent[|sent| - 1].datagram);
      (next, answers + [answer])
  }

  /** The fragments carried so far, in order. */
  function Arrived(sent: seq<Sent>): seq<nat> {
    if sent == [] then [] else Arrived(sent[..|sent| - 1]) + sent[|sent| - 1].now
  }

  function Packets(sent: seq<Sent>): nat {
    if sent == [] then 0 else Packets(sent[..|sent| - 1]) + |sent[|sent| - 1].cs|
  }

  /** The fragments that have arrived with these datagrams cover the hello from its first byte. */
  ghost predicate Covers(frags: seq<bytes>, hello: bytes, sent: seq<Sent>) {
    Covered(frags, Arrived(sent)) >= |hello|
  }

  /** They do so with the `k`-th datagram, and fewer than eight packets came before it. */
  ghost predicate FoundAt(frags: seq<bytes>, hello: bytes, sent: seq<Sent>, k: nat)
    requires k < |sent|
  {
    Packets(sent[..k]) < MAX_INITIAL_PACKETS && Covers(frags, hello, sent[..k + 1])
  }

  ghost predicate Found(frags: seq<bytes>, hello: bytes, sent: seq<Sent>) {
    exists k :: 0 <= k < |sent| && FoundAt(frags, hello, sent, k)
  }

  lemma FoundStep(frags: seq<bytes>, hello: bytes, sent: seq<Sent>)
    requires sent != []
    ensures var front := sent[..|sent| - 1];
      Found(frags, hello, sent)
      <==> Found(frags, hello, front) || (Packets(front) < MAX_INITIAL_PACKETS && Covers(frags, hello, sent))
  {
    hide Covers, Packets;
    var front := sent[..|sent| - 1];
    assert sent[..|front| + 1] == sent;
    forall k | 0 <= k < |front|
      ensures FoundAt(frags, hello, front, k) <==> FoundAt(frags, hello, sent, k)
    {
      assert front[..k] == sent[..k] && front[..k + 1] == sent[..k + 1];
    }
    assert FoundAt(frags, hello, sent, |front|) <==> Packets(front) < MAX_INITIAL_PACKETS && Covers(frags, hello, sent);
    hide FoundAt;
  }

  lemma {:induction false} ArrivedInRange(suite: Suite, frags: seq<bytes>, sent: seq<Sent>)
    requires suite.Shaped() && suite.OpensSealed() && AllCarry(suite, frags, sent)
    ensures InRange(Arrived(sent), |frags|)
  {
    hide Carried, Delivered, Decrypt, Datagram, ValidCarriers, Suite.Shaped, Suite.OpensSealed;
    if sent != [] {
      var front := sent[..|sent| - 1];
      assert forall i | 0 <= i < |front| :: front[i] == sent[i];
      ArrivedInRange(suite, frags, front);
      DeliveredConcat(frags, Arrived(front), sent[|sent| - 1].now);
    }
  }

  /** Where the decoder is: done if the name was found, over the limit, or waiting with exactly
      what has arrived. */
  ghost predicate Waiting(frags: seq<bytes>, hello: bytes, sent: seq<Sent>, st: State)
    requires InRange(Arrived(sent), |frags|)
  {
    if st.done then Found(frags, hello, sent)
    else
      && !Found(frags, hello, sent)
      && if Packets(sent) >= MAX_INITIAL_PACKETS then st.packets >= MAX_INITIAL_PACKETS
         else st == State(AddAll(EMPTY, Delivered(frags, Arrived(sent))), Packets(sent), false)
  }

  /** What the decoder answers to the last of some datagrams. */
  ghost function Answer(frags: seq<bytes>, hello: bytes, host: bytes, sent: seq<Sent>): FeedResult
    requires sent != []
  {
    var front := sent[..|sent| - 1];
    if Found(frags, hello, front) then Ok(None)
    else if Packets(front) >= MAX_INITIAL_PACKETS then Err(TooManyPackets)
    else Ok(if Covers(frags, hello, sent) then Some(host) else None)
  }

  /** Any list of datagrams that carry a cut hello, fed to a new decoder: the answer to each is
      determined by what has arrived with it. */
  lemma {:induction false} DeliveryAnswered(suite: Suite, h: CH.Hello, es: seq<CH.NameEntry>, frags: seq<bytes>,
                                            sent: seq<Sent>)
    requires suite.Shaped() && suite.OpensSealed()
    requires Names(h, es) && IsCut(frags) && Concat(frags) == CH.Serialise(h)
    requires AllCarry(suite, frags, sent)
    ensures InRange(Arrived(sent), |frags|)
    ensures var (st, answers) := FedAll(suite, sent);
      && Waiting(frags, CH.Serialise(h), sent, st)
      && (sent != [] ==> answers[|sent| - 1] == Answer(frags, CH.Serialise(h), CH.Lower(es[0].name), sent))
  {
    hide *;
    ArrivedInRange(suite, frags, sent);
    NamesValid(h, es);
    if sent == [] {
      NothingSent(suite, frags, CH.Serialise(h));
    } else {
      var front := sent[..|sent| - 1];
      FrontCarries(suite, frags, sent);
      DeliveryAnswered(suite, h, es, frags, front);
      var st := FedAll(suite, front).0;
      LastFed(suite, h, es, frags, sent, st);
      FedAllStep(suite, sent);
    }
  }

  lemma FrontCarries(suite: Suite, frags: seq<bytes>, sent: seq<Sent>)
    requires suite.Shaped() && suite.OpensSealed() && AllCarry(suite, frags, sent) && sent != []
    ensures AllCarry(suite, frags, sent[..|sent| - 1]) && Carries(suite, frags, sent[|sent| - 1])
  {
    hide Carries, Suite.Shaped, Suite.OpensSealed;
    var front := sent[..|sent| - 1];
    assert forall i | 0 <= i < |front| :: front[i] == sent[i];
  }

  lemma LastFed(suite: Suite, h: CH.Hello, es: seq<CH.NameEntry>, frags: seq<bytes>, sent: seq<Sent>, st: State)
    requires suite.Shaped() && suite.OpensSealed() && CryptoStream.Valid(st.buffer)
    requires Names(h, es) && IsCut(frags) && Concat(frags) == CH.Serialise(h)
    requires sent != [] && Carries(suite, frags, sent[|sent| - 1])
    requires InRange(Arrived(sent[..|sent| - 1]), |frags|) && InRange(Arrived(sent), |frags|)
    requires Waiting(frags, CH.Serialise(h), sent[..|sent| - 1], st)
    ensures var (next, answer) := Fed(suite, st, sent[|sent| - 1].datagram);
      && Waiting(frags, CH.Serialise(h), sent, next)
      && answer == Answer(frags, CH.Serialise(h), CH.Lower(es[0].name), sent)
  {
    hide *;
    NamesValid(h, es);
    var front, x, hello := sent[..|sent| - 1], sent[|sent| - 1], CH.Serialise(h);
    if st.done || st.packets >= MAX_INITIAL_PACKETS {
      FedIdle(suite, st, x.datagram);
      IdleAnswer(frags, hello, CH.Lower(es[0].name), sent, st);
    } else {
      CarriesParts(suite, frags, x);
      OpenAnswer(frags, hello, CH.Lower(es[0].name), sent, st);
      NameReportedExactlyWhenCovered(suite, h, es, frags, Arrived(front), x.now, Packets(front), x.cs, x.tail);
    }
  }

  lemma NamesValid(h: CH.Hello, es: seq<CH.NameEntry>)
    requires Names(h, es)
    ensures h.Valid() && es != []
  {
  }

  lemma CarriesParts(suite: Suite, frags: seq<bytes>, x: Sent)
    requires suite.Shaped() && suite.OpensSealed() && Carries(suite, frags, x)
    ensures x.cs != [] && ValidCarriers(x.cs) && InRange(x.now, |frags|) && Carried(x.cs) == Delivered(frags, x.now)
    ensures (x.tail == [] || Decrypt(suite, x.tail).Err?) && x.datagram == Datagram(suite, x.cs, x.tail)
  {
    hide Suite.Shaped, Suite.OpensSealed, ValidCarriers, InRange, Carried, Delivered, Decrypt, Datagram;
  }

  /** A decoder that is done or over the limit stays so. */
  lemma IdleAnswer(frags: seq<bytes>, hello: bytes, host: bytes, sent: seq<Sent>, st: State)
    requires sent != [] && InRange(Arrived(sent[..|sent| - 1]), |frags|) && InRange(Arrived(sent), |frags|)
    requires Waiting(frags, hello, sent[..|sent| - 1], st) && (st.done || st.packets >= MAX_INITIAL_PACKETS)
    ensures Waiting(frags, hello, sent, st)
    ensures Answer(frags, hello, host, sent) == if st.done then Ok(None) else Err(TooManyPackets)
  {
    hide Found, Covers, Delivered, InRange, AddAll, Arrived, Packets;
    FoundStep(frags, hello, sent);
    SentStep(sent);
  }

  /** A decoder that waits below the limit answers by what has arrived. */
  lemma OpenAnswer(frags: seq<bytes>, hello: bytes, host: bytes, sent: seq<Sent>, st: State)
    requires sent != [] && InRange(Arrived(sent[..|sent| - 1]), |frags|) && InRange(Arrived(sent), |frags|)
    requires Waiting(frags, hello, sent[..|sent| - 1], st) && !st.done && st.packets < MAX_INITIAL_PACKETS
    ensures var front, x := sent[..|sent| - 1], sent[|sent| - 1];
      && st == State(AddAll(EMPTY, Delivered(frags, Arrived(front))), Packets(front), false)
      && Arrived(sent) == Arrived(front) + x.now
      && var found := Covered(frags, Arrived(sent)) >= |hello|;
         && Waiting(frags, hello, sent, State(AddAll(EMPTY, Delivered(frags, Arrived(sent))),
             Packets(front) + |x.cs|, found))
         && Answer(frags, hello, host, sent) == Ok(if found then Some(host) else None)
  {
    hide Found, Covered, Delivered, InRange, AddAll, Arrived, Packets;
    FoundStep(frags, hello, sent);
    SentStep(sent);
  }

  lemma SentStep(sent: seq<Sent>)
    requires sent != []
    ensures Arrived(sent) == Arrived(sent[..|sent| - 1]) + sent[|sent| - 1].now
    ensures Packets(sent) == Packets(sent[..|sent| - 1]) + |sent[|sent| - 1].cs|
  {
  }

  lemma FedIdle(suite: Suite, st: State, datagram: bytes)
    requires suite.Shaped() && CryptoStream.Valid(st.buffer)
    ensures st.done ==> Fed(suite, st, datagram) == (st, Ok(None))
    ensures !st.done && st.packets >= MAX_INITIAL_PACKETS ==> Fed(suite, st, datagram) == (st, Err(TooManyPackets))
  {
  }

  lemma NothingSent(suite: Suite, frags: seq<bytes>, hello: bytes)
    requires suite.Shaped()
    ensures InRange(Arrived([]), |frags|) && Waiting(frags, hello, [], FedAll(suite, []).0)
  {
    hide Suite.Shaped, CryptoStream.Valid;
    assert Delivered(frags, []) == [];
  }

  lemma {:induction false} FedAllStep(suite: Suite, sent: seq<Sent>)
    requires sent != [] && suite.Shaped()
    ensures var (st, answers) := FedAll(suite, sent[..|sent| - 1]);
      var (next, answer) := Fed(suite, st, sent[|sent| - 1].datagram);
      FedAll(suite, sent) == (next, answers + [answer])
  {
    hide Fed;
  }

  lemma {:induction false} EarlierAnswer(suite: Suite, sent: seq<Sent>, k: nat)
    requires k < |sent| && suite.Shaped()
    ensures FedAll(suite, sent).1[k] == FedAll(suite, sent[..k + 1]).1[k]
  {
    hide Suite.Shaped;
    if k == |sent| - 1 {
      assert sent[..k + 1] == sent;
    } else {
      var front := sent[..|sent| - 1];
      EarlierAnswer(suite, front, k);
      assert front[..k + 1] == sent[..k + 1];
      FedAllStep(suite, sent);
      hide FedAll;
    }
  }

  lemma {:induction false} PacketsGrow(sent: seq<Sent>, k: nat)
    requires k <= |sent|
    ensures Packets(sent[..k]) <= Packets(sent)
  {
    if k == |sent| {
      assert sent[..k] == sent;
    } else {
      PacketsGrow(sent[..|sent| - 1], k);
      assert sent[..|sent| - 1][..k] == sent[..k];
    }
  }

  /** The datagram that completes the hello: the fragments cover it with this one and with none
      before. */
  ghost predicate FirstCovering(frags: seq<bytes>, hello: bytes, sent: seq<Sent>, k: nat)
    requires k < |sent|
  {
    CoversWith(frags, hello, sent, k) && forall j | 0 <= j < k :: !CoversWith(frags, hello, sent, j)
  }

  ghost predicate CoversWith(frags: seq<bytes>, hello: bytes, sent: seq<Sent>, k: nat)
    requires k < |sent|
  {
    Covers(frags, hello, sent[..k + 1])
  }

  /** End to end: of any list of datagrams that carry a cut hello, in any order and with any
      repetitions, the lower-cased host is reported at exactly the first one with which the
      fragments cover the hello, provided fewer than eight Initial packets came before it. */
  lemma HostReportedAtFirstCovering(suite: Suite, h: CH.Hello, es: seq<CH.NameEntry>, frags: seq<bytes>,
                                    sent: seq<Sent>, k: nat)
    requires suite.Shaped() && suite.OpensSealed()
    requires Names(h, es) && IsCut(frags) && Concat(frags) == CH.Serialise(h)
    requires AllCarry(suite, frags, sent) && k < |sent|
    ensures FedAll(suite, sent).1[k] == Ok(Some(CH.Lower(es[0].name)))
            <==> FirstCovering(frags, CH.Serialise(h), sent, k) && Packets(sent[..k]) < MAX_INITIAL_PACKETS
  {
    var some, hello := sent[..k + 1], CH.Serialise(h);
    assert forall i | 0 <= i < |some| :: some[i] == sent[i];
    assert AllCarry(suite, frags, some);
    hide *;
    DeliveryAnswered(suite, h, es, frags, some);
    EarlierAnswer(suite, sent, k);
    LastAnswer(frags, hello, CH.Lower(es[0].name), sent, k);
  }

  lemma LastAnswer(frags: seq<bytes>, hello: bytes, host: bytes, sent: seq<Sent>, k: nat)
    requires k < |sent|
    ensures Answer(frags, hello, host, sent[..k + 1]) == Ok(Some(host))
            <==> FirstCovering(frags, hello, sent, k) && Packets(sent[..k]) < MAX_INITIAL_PACKETS
  {
    var before := sent[..k];
    assert sent[..k + 1][..k] == before;
    hide Covers, Packets;
    forall j | 0 <= j < k
      ensures FoundAt(frags, hello, before, j)
            <==> Packets(sent[..j]) < MAX_INITIAL_PACKETS && CoversWith(frags, hello, sent, j)
      ensures Packets(sent[..j]) <= Packets(before)
    {
      assert before[..j] == sent[..j] && before[..j + 1] == sent[..j + 1];
      PacketsGrow(before, j);
    }
    hide FoundAt, CoversWith;
  }

  // ---------- The packet limit at work ----------

  /** A packet with a PING frame. */
  function PingCarrier(): Carrier {
    Carrier(Initial(V1, 0, [], [], 0, [], 0, 0, 4, [1]), [Ping])
  }

  function Pings(n: nat): seq<Carrier> {
    if n == 0 then [] else [PingCarrier()] + Pings(n - 1)
  }

  lemma PingValid()
    ensures PingCarrier().Valid()
  {
    assert Pow256(0) == 1 && Pow256(4) == 256 * Pow256(3);
    assert [Ping][1..] == [];
    assert PutFrames([Ping], []) == [1];
  }

  lemma {:induction false} PingsValid(n: nat)
    ensures ValidCarriers(Pings(n)) && |Pings(n)| == n
  {
    hide Carrier.Valid, PingCarrier;
    if n > 0 {
      PingValid();
      PingsValid(n - 1);
      assert Pings(n)[1..] == Pings(n - 1);
    }
  }

  /** One datagram of any number of coalesced packets fed to a new decoder: all are decrypted and
      counted, nine as well as eight. */
  lemma AllPacketsCounted(suite: Suite, n: nat)
    requires suite.Shaped() && suite.OpensSealed() && n > 0
    ensures CryptoStream.Valid(EMPTY) && ValidCarriers(Pings(n))
    ensures Fed(suite, State(EMPTY, 0, false), Datagram(suite, Pings(n), [])).0.packets == n
    ensures n == 9 ==> Fed(suite, State(EMPTY, 0, false), Datagram(suite, Pings(n), [])).0.packets > MAX_INITIAL_PACKETS
  {
    hide Suite.Shaped, Suite.OpensSealed, Datagram, Fed, CryptoStream.Valid, ValidCarriers, Pings;
    EmptyIsValid();
    PingsValid(n);
    FedCounts(suite, State(EMPTY, 0, false), Pings(n));
  }

  lemma FedCounts(suite: Suite, st: State, cs: seq<Carrier>)
    requires suite.Shaped() && suite.OpensSealed() && ValidCarriers(cs) && cs != []
    requires CryptoStream.Valid(st.buffer) && !st.done && st.packets < MAX_INITIAL_PACKETS
    ensures Fed(suite, st, Datagram(suite, cs, [])).0.packets == st.packets + |cs|
  {
    hide Suite.Shaped, Suite.OpensSealed, Decrypt, Datagram, Fed, CryptoStream.Valid, AddAll, ValidCarriers;
    FedDatagram(suite, st, cs, []);
  }

  lemma ReachedIsValid(os: seq<Offer>)
    ensures CryptoStream.Valid(AddAll(EMPTY, os))
  {
    EmptyIsValid();
    AddAllKeepsValid(EMPTY, os);
  }
}

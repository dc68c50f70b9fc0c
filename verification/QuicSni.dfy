/** The decoder that recovers the server name from the Initial packets of one QUIC
    connection: decryption, frames, reassembly and ClientHello put together. */
module QuicSni {
  import opened Bytes
  import opened Common
  import opened CryptoStream
  import opened InitialPacket
  import opened QuicFrames
  import Varint
  import ClientHello

  const MAX_INITIAL_PACKETS := 8

  datatype FeedError =
    | BadPacket(packet: PacketError)
    | TooManyPackets
    | BadFrames
    | BadHello(hello: ClientHello.SniError)

  /** `None` while more datagrams are needed, the name once it is known. */
  type FeedResult = Result<Option<bytes>, FeedError>

  datatype State = State(buffer: Buffer, packets: nat, done: bool)

  /** What one decrypted payload does to the state. */
  function Collect(st: State, payload: bytes): State {
    st.(buffer := AddAll(st.buffer, Parse(payload).offers), packets := st.packets + 1)
  }

  /** The walk over the packets coalesced in one datagram. */
  function Absorb(suite: Suite, st: State, rest: bytes, saw: bool): (State, Option<FeedError>)
    requires suite.Shaped()
    decreases |rest|
  {
    if rest == [] then (st, if saw then None else Some(BadPacket(NotInitial)))
    else
      match Decrypt(suite, rest)
      case Err(e) => (st, if saw then None else Some(BadPacket(e)))
      case Ok((payload, n)) =>
        if !Parse(payload).ok then (Collect(st, payload), Some(BadFrames))
        else Absorb(suite, Collect(st, payload), rest[n..], true)
  }

  ghost function Finish(st: State): (State, FeedResult)
    requires NoEmpty(st.buffer.segments)
  {
    match Assemble(st.buffer)
    case None => (st, Ok(None))
    case Some(hello) =>
      match ClientHello.QuicSni(hello)
      case Err(e) => (st, Err(BadHello(e)))
      case Ok(name) => (st.(done := true), Ok(Some(name)))
  }

  lemma {:induction false} AbsorbKeepsValid(suite: Suite, st: State, rest: bytes, saw: bool)
    requires suite.Shaped() && CryptoStream.Valid(st.buffer)
    ensures CryptoStream.Valid(Absorb(suite, st, rest, saw).0.buffer)
    decreases |rest|
  {
    hide CryptoStream.Valid, AddAll, Parse, Decrypt, Suite.Shaped;
    if rest != [] && Decrypt(suite, rest).Ok? {
      var (payload, n) := Decrypt(suite, rest).value;
      AddAllKeepsValid(st.buffer, Parse(payload).offers);
      AbsorbKeepsValid(suite, Collect(st, payload), rest[n..], true);
    }
  }

  lemma ValidHasNoEmpty(b: Buffer)
    requires CryptoStream.Valid(b)
    ensures NoEmpty(b.segments)
  {
  }

  /** One datagram: the new state and what is reported. */
  ghost function Fed(suite: Suite, st: State, datagram: bytes): (r: (State, FeedResult))
    requires suite.Shaped() && CryptoStream.Valid(st.buffer)
    ensures CryptoStream.Valid(r.0.buffer)
  {
    if st.done then (st, Ok(None))
    else if st.packets >= MAX_INITIAL_PACKETS then (st, Err(TooManyPackets))
    else
      AbsorbKeepsValid(suite, st, datagram, false);
      var (next, err) := Absorb(suite, st, datagram, false);
      if err.Some? then (next, Err(err.value))
      else
        ValidHasNoEmpty(next.buffer);
        Finish(next)
  }

  class Decoder {
    var segments: map<nat, bytes>
    var total: nat
    var packets: nat
    var done: bool

    ghost predicate Valid()
      reads this
    {
      CryptoStream.Valid(Buffer(segments, total))
    }

    ghost function Contents(): State
      reads this
    {
      State(Buffer(segments, total), packets, done)
    }

    constructor ()
      ensures Valid() && Contents() == State(EMPTY, 0, false)
    {
      segments, total, packets, done := map[], 0, 0, false;
      EmptyIsValid();
    }

    method AddSegment(off: nat, data: bytes)
      requires Valid()
      modifies this`segments, this`total
      ensures Valid()
      ensures Buffer(segments, total) == Add(old(Buffer(segments, total)), Offer(off, data))
    {
      AddKeepsValid(Buffer(segments, total), Offer(off, data));
      if |data| == 0 || off > MAX_CRYPTO_BYTES {
        return;
      }
      if total + |data| > MAX_CRYPTO_BYTES {
        return;
      }
      if off in segments {
        return;
      }
      segments := segments[off := data];
      total := total + |data|;
    }

    /** The frame loop. Offers made before an error stay in the buffer. */
    method CollectCrypto(payload: bytes) returns (ok: bool)
      requires Valid()
      modifies this`segments, this`total
      ensures Valid()
      ensures ok == Parse(payload).ok
      ensures Buffer(segments, total) == AddAll(old(Buffer(segments, total)), Parse(payload).offers)
    {
      hide CryptoStream.Valid, Varint.Read, NextCrypto, SkipAck, AddAll, Add;
      var rest := payload;
      ghost var before := Buffer(segments, total);
      ghost var seen: seq<Offer> := [];
      AddNothing(before, Parse(payload).offers);
      while |rest| > 0
        invariant Valid()
        invariant Parse(payload) == Parsed(seen + Parse(rest).offers, Parse(rest).ok)
        invariant Buffer(segments, total) == AddAll(before, seen)
        decreases |rest|
      {
        var typ, n, found := Varint.ReadVarint(rest);
        if !found {
          assert seen + [] == seen;
          return false;
        }
        var after := rest[n..];
        if typ == 0x00 {
          rest := SkipPadding(after);
        } else if typ == 0x01 {
          rest := after;
        } else if typ == 0x02 || typ == 0x03 {
          var skipped, good := SkipAckBody(after, typ == 0x03);
          if !good {
            assert seen + [] == seen;
            return false;
          }
          rest := skipped;
        } else if typ == 0x06 {
          var off, data, next, good := CutCrypto(after);
          if !good {
            assert seen + [] == seen;
            return false;
          }
          AddSegment(off, data);
          AppendOffer(before, seen, Offer(off, data), Parse(next).offers);
          seen := seen + [Offer(off, data)];
          rest := next;
        } else {
          assert seen + [] == seen;
          return true;
        }
      }
      assert seen + [] == seen;
      return true;
    }

    /** A run of padding is skipped at once. */
    static method SkipPadding(after: bytes) returns (rest: bytes)
      ensures rest == SkipZeros(after)
    {
      var i := 0;
      while i < |after| && after[i] == 0
        invariant 0 <= i <= |after|
        invariant SkipZeros(after) == SkipZeros(after[i..])
      {
        i := i + 1;
      }
      return after[i..];
    }

    /** The lookup loop from offset zero; it ends because no segment is empty. */
    method AssembleHello() returns (r: Option<bytes>)
      requires Valid()
      ensures NoEmpty(segments)
      ensures r == Assemble(Buffer(segments, total))
    {
      hide CryptoStream.Valid, CompleteHello;
      ValidHasNoEmpty(Buffer(segments, total));
      var buf: bytes := [];
      while |buf| in segments
        invariant Contiguous(segments, 0) == buf + Contiguous(segments, |buf|)
        decreases |Ahead(segments, |buf|)|
      {
        var seg := segments[|buf|];
        AheadShrinks(segments, |buf|, |buf| + |seg|);
        assert buf + (seg + Contiguous(segments, |buf| + |seg|))
            == buf + seg + Contiguous(segments, |buf| + |seg|);
        buf := buf + seg;
      }
      assert buf + [] == buf;
      return CompleteHello(buf);
    }

    method Feed(suite: Suite, datagram: bytes) returns (r: FeedResult)
      requires Valid() && suite.Shaped()
      modifies this
      ensures Valid()
      ensures (Contents(), r) == Fed(suite, old(Contents()), datagram)
    {
      hide CryptoStream.Valid, AddAll, Parse, Decrypt, Suite.Shaped;
      if done {
        return Ok(None);
      }
      if packets >= MAX_INITIAL_PACKETS {
        return Err(TooManyPackets);
      }
      var sawInitial := false;
      var rest := datagram;
      ghost var start := Contents();
      while |rest| > 0
        invariant Valid() && !done
        invariant Absorb(suite, start, datagram, false) == Absorb(suite, Contents(), rest, sawInitial)
        decreases |rest|
      {
        var packet := DecryptInitial(suite, rest);
        if packet.Err? {
          if !sawInitial {
            return Err(BadPacket(packet.error));
          }
          break;
        }
        var (payload, consumed) := packet.value;
        sawInitial := true;
        packets := packets + 1;
        var ok := CollectCrypto(payload);
        if !ok {
          return Err(BadFrames);
        }
        rest := rest[consumed..];
      }
      if !sawInitial {
        return Err(BadPacket(NotInitial));
      }
      var hello := AssembleHello();
      if hello.None? {
        return Ok(None);
      }
      var name := ClientHello.ParseQuicSni(hello.value);
      if name.Err? {
        return Err(BadHello(name.error));
      }
      done := true;
      return Ok(Some(name.value));
    }
  }

  lemma AddNothing(before: Buffer, more: seq<Offer>)
    ensures AddAll(before, []) == before
    ensures [] + more == more
  {
  }

  lemma AppendOffer(before: Buffer, seen: seq<Offer>, o: Offer, more: seq<Offer>)
    ensures AddAll(before, seen + [o]) == Add(AddAll(before, seen), o)
    ensures seen + ([o] + more) == seen + [o] + more
  {
    AddAllConcat(before, seen, [o]);
    assert [o][1..] == [];
    assert AddAll(AddAll(before, seen), [o]) == AddAll(Add(AddAll(before, seen), o), []);
  }

  /** A datagram whose first packet does not open is refused and changes nothing; later packets that
      do not open are passed over. */
  lemma {:induction false} FirstPacketDecides(suite: Suite, st: State, datagram: bytes)
    requires suite.Shaped() && CryptoStream.Valid(st.buffer)
    requires !st.done && st.packets < MAX_INITIAL_PACKETS
    ensures datagram == [] ==> Fed(suite, st, datagram) == (st, Err(BadPacket(NotInitial)))
    ensures datagram != [] && Decrypt(suite, datagram).Err? ==>
      Fed(suite, st, datagram) == (st, Err(BadPacket(Decrypt(suite, datagram).error)))
    ensures datagram != [] && Decrypt(suite, datagram).Ok? ==>
      !(Fed(suite, st, datagram).1.Err? && Fed(suite, st, datagram).1.error.BadPacket?)
  {
    hide CryptoStream.Valid, Parse, Decrypt, Suite.Shaped, AddAll, Assemble, ClientHello.QuicSni;
    if datagram != [] && Decrypt(suite, datagram).Ok? {
      var (payload, n) := Decrypt(suite, datagram).value;
      NoBadPacket(suite, Collect(st, payload), datagram[n..]);
    }
  }

  lemma {:induction false} NoBadPacket(suite: Suite, st: State, rest: bytes)
    requires suite.Shaped()
    ensures var (_, err) := Absorb(suite, st, rest, true); err.None? || err == Some(BadFrames)
    decreases |rest|
  {
    hide Parse, Decrypt, Suite.Shaped, AddAll;
    if rest != [] && Decrypt(suite, rest).Ok? {
      var (payload, n) := Decrypt(suite, rest).value;
      NoBadPacket(suite, Collect(st, payload), rest[n..]);
    }
  }
}

/** The SOCKS5 UDP header in front of every relayed datagram (section 7 of RFC 1928). */
module Socks5Udp {
  import opened Common
  import opened Bytes

  type Ip4 = s: seq<byte> | |s| == 4 witness [0, 0, 0, 0]
  type Ip6 = s: seq<byte> | |s| == 16 witness seq(16, _ => 0)

  /** A target host as `netip` reads it, unmapped; anything else is a name. */
  datatype Host = V4(ip: Ip4) | V6(ip6: Ip6) | Name(text: seq<byte>)

  datatype Error = NameTooLong | TooShort | Fragmented | UnknownType | HeaderPastEnd

  const IPV4: byte := 1
  const NAME: byte := 3
  const IPV6: byte := 4
  const MAX_HEADER := 262

  function AddressBytes(h: Host): seq<byte>
    requires h.Name? ==> |h.text| <= 255
  {
    match h
    case V4(ip) => [IPV4] + ip
    case V6(ip) => [IPV6] + ip
    case Name(text) => [NAME, |text| as byte] + text
  }

  function Header(h: Host, port: nat): seq<byte>
    requires h.Name? ==> |h.text| <= 255
  {
    [0, 0, 0] + AddressBytes(h) + [(port / 256 % 256) as byte, (port % 256) as byte]
  }

  /** `Write`: what goes out to the relay. */
  method Wrap(h: Host, port: nat, payload: seq<byte>) returns (r: Result<seq<byte>, Error>)
    ensures r == if h.Name? && |h.text| > 255 then Err(NameTooLong) else Ok(Header(h, port) + payload)
  {
    var head: seq<byte> := [0, 0, 0];
    match h {
      case V4(ip) => head := head + ([IPV4] + ip);
      case V6(ip) => head := head + ([IPV6] + ip);
      case Name(text) =>
        if |text| > 255 {
          return Err(NameTooLong);
        }
        head := head + ([NAME, |text| as byte] + text);
    }
    head := head + [(port / 256 % 256) as byte, (port % 256) as byte];
    return Ok(head + payload);
  }

  /** Where the payload of a reply starts. */
  function Offset(packet: seq<byte>): Result<nat, Error> {
    if |packet| < 10 then Err(TooShort)
    else if packet[2] != 0 then Err(Fragmented)
    else
      var off :=
        if packet[3] == IPV4 then Ok(10)
        else if packet[3] == IPV6 then Ok(22)
        else if packet[3] == NAME then Ok(7 + packet[4] as nat)
        else Err(UnknownType);
      if off.Ok? && off.value > |packet| then Err(HeaderPastEnd) else off
  }

  function AtMost(s: seq<byte>, n: nat): seq<byte> {
    if |s| > n then s[..n] else s
  }

  /** The payload a reader with `room` bytes gets. */
  function Unwrapped(datagram: seq<byte>, room: nat): Result<seq<byte>, Error> {
    var packet := AtMost(datagram, room + MAX_HEADER);
    if Offset(packet).Err? then Err(Offset(packet).error) else Ok(AtMost(packet[Offset(packet).value..], room))
  }

  /** `Read` into a buffer of `room` bytes; the socket delivers at most `room` bytes behind the
      longest header. */
  method Unwrap(datagram: seq<byte>, room: nat) returns (r: Result<seq<byte>, Error>)
    ensures r == Unwrapped(datagram, room)
  {
    var packet := AtMost(datagram, room + MAX_HEADER);
    if |packet| < 10 {
      return Err(TooShort);
    }
    if packet[2] != 0 {
      return Err(Fragmented);
    }
    var off: nat;
    if packet[3] == IPV4 {
      off := 4 + 4 + 2;
    } else if packet[3] == IPV6 {
      off := 4 + 16 + 2;
    } else if packet[3] == NAME {
      off := 4 + 1 + packet[4] as nat + 2;
    } else {
      return Err(UnknownType);
    }
    if off > |packet| {
      return Err(HeaderPastEnd);
    }
    return Ok(AtMost(packet[off..], room));
  }

  lemma HeaderShape(h: Host, port: nat)
    requires h.Name? ==> |h.text| <= 255
    ensures var head := Header(h, port);
      && |head| == (match h case V4(_) => 10 case V6(_) => 22 case Name(text) => 7 + |text|)
      && |head| <= MAX_HEADER && head[2] == 0
      && head[3] == (match h case V4(_) => IPV4 case V6(_) => IPV6 case Name(_) => NAME)
      && (h.Name? ==> head[4] == |h.text| as byte)
  {
  }

  /** A reply that carries the header `Write` would have used gives its payload back, cut to
      the buffer, exactly when header and payload together have ten bytes: the length check
      presumes an IPv4 header, so tiny replies from one- and two-letter names are refused. */
  lemma RoundTripIff(h: Host, port: nat, payload: seq<byte>, room: nat)
    requires h.Name? ==> |h.text| <= 255
    ensures Unwrapped(Header(h, port) + payload, room) ==
      if |Header(h, port)| + |payload| < 10 then Err(TooShort) else Ok(AtMost(payload, room))
    ensures |Header(h, port)| + |payload| < 10 <==> h.Name? && |h.text| + |payload| < 3
  {
    hide Header;
    var head := Header(h, port);
    HeaderShape(h, port);
    var all := head + payload;
    var packet := AtMost(all, room + MAX_HEADER);
    assert packet == head + payload[..|packet| - |head|];
    if |packet| >= 10 {
      if !h.Name? || |h.text| >= 2 {
        assert packet[2] == head[2] && packet[3] == head[3];
      }
      assert packet[|head|..] == payload[..|packet| - |head|];
      assert AtMost(packet[|head|..], room) == AtMost(payload, room);
    }
  }

  /** The header of section 7 of RFC 1928, byte by byte: two reserved bytes and the fragment number
      are zero, then type and address, then the port in network byte order. */
  lemma {:induction false} HeaderMeaning(h: Host, port: nat)
    requires (h.Name? ==> |h.text| <= 255) && port < 65536
    ensures Header(h, port) == [0, 0, 0] + (match h
      case V4(ip) => [1] + ip
      case V6(ip) => [4] + ip
      case Name(text) => [3, |text| as byte] + text) + Be(port, 2)
  {
    PortBytes(port);
  }

  lemma PortBytes(port: nat)
    requires port < 65536
    ensures Be(port, 2) == [(port / 256 % 256) as byte, (port % 256) as byte]
  {
    assert Be(port / 256, 1) == Be(port / 256 / 256, 0) + [port / 256 % 256];
  }
}

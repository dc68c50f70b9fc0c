/** Server name extraction from a TLS ClientHello (section 4.1.2 of RFC 8446, section 3 of
    RFC 6066): the strict parser of the QUIC path, the lenient one of the TCP path, and the
    serialiser both have to invert. */
module ClientHello {
  import opened Bytes
  import opened Common

  datatype SniError = Malformed | NoSni

  type SniResult = Result<bytes, SniError>

  // ---------- Host names ----------

  predicate HostByte(c: byte) {
    || 'a' as int <= c <= 'z' as int
    || 'A' as int <= c <= 'Z' as int
    || '0' as int <= c <= '9' as int
    || c == '.' as int || c == '-' as int || c == '_' as int
  }

  predicate ValidHost(name: bytes) {
    0 < |name| <= 253 && forall i | 0 <= i < |name| :: HostByte(name[i])
  }

  function LowerByte(c: byte): byte {
    if 'A' as int <= c <= 'Z' as int then c + 32 else c
  }

  function Lower(name: bytes): (r: bytes)
    ensures |r| == |name|
  {
    seq(|name|, i requires 0 <= i < |name| => LowerByte(name[i]))
  }

  predicate SpaceByte(c: byte) {
    c == 32 || 9 <= c <= 13
  }

  function TrimLeft(b: bytes): bytes {
    if b != [] && SpaceByte(b[0]) then TrimLeft(b[1..]) else b
  }

  function Trim(b: bytes): bytes {
    TrimRight(TrimLeft(b))
  }

  function TrimRight(b: bytes): bytes {
    if b != [] && SpaceByte(b[|b| - 1]) then TrimRight(b[..|b| - 1]) else b
  }

  lemma {:induction false} TrimKeepsHost(name: bytes)
    requires ValidHost(name)
    ensures Trim(name) == name
  {
    assert HostByte(name[0]) && HostByte(name[|name| - 1]);
  }

  method IsValidHost(s: bytes) returns (ok: bool)
    ensures ok == ValidHost(s)
  {
    if |s| == 0 || |s| > 253 {
      return false;
    }
    var i := 0;
    while i < |s|
      invariant 0 <= i <= |s|
      invariant forall j | 0 <= j < i :: HostByte(s[j])
    {
      if !HostByte(s[i]) {
        return false;
      }
      i := i + 1;
    }
    return true;
  }

  // ---------- Shared layout ----------

  /** What follows a vector with a one-byte length. */
  function SkipVector1(b: bytes): (r: Option<bytes>)
    ensures r.Some? ==> |r.value| < |b|
  {
    if |b| < 1 || 1 + b[0] > |b| then None else Some(b[1 + b[0]..])
  }

  /** What follows a vector with a two-byte length. */
  function SkipVector2(b: bytes): (r: Option<bytes>)
    ensures r.Some? ==> |r.value| < |b|
  {
    if |b| < 2 || 2 + U16(b[0], b[1]) > |b| then None else Some(b[2 + U16(b[0], b[1])..])
  }

  /** What follows session id, cipher suites and compression methods. */
  function AfterVectors(b: bytes): Option<bytes> {
    match SkipVector1(b)
    case None => None
    case Some(ciphers) =>
      match SkipVector2(ciphers)
      case None => None
      case Some(compression) => SkipVector1(compression)
  }

  /** The vectors seen from a cursor into the message. */
  lemma {:induction false} Vector1At(b: bytes, i: nat)
    requires i <= |b|
    ensures SkipVector1(b[i..])
         == if i < |b| && i + 1 + b[i] <= |b| then Some(b[i + 1 + b[i]..]) else None
  {
  }

  lemma {:induction false} Vector2At(b: bytes, i: nat)
    requires i <= |b|
    ensures SkipVector2(b[i..])
         == if i + 2 <= |b| && i + 2 + U16(b[i], b[i + 1]) <= |b|
            then Some(b[i + 2 + U16(b[i], b[i + 1])..]) else None
  {
  }

  // ---------- The QUIC path ----------

  function HostOf(name: bytes): SniResult {
    if ValidHost(name) then Ok(Lower(name)) else Err(Malformed)
  }

  function NameList(b: bytes): SniResult
    decreases |b|
  {
    if |b| < 3 then Err(NoSni)
    else
      var len := U16(b[1], b[2]);
      if 3 + len > |b| then Err(Malformed)
      else if b[0] == 0 then HostOf(b[3..3 + len])
      else NameList(b[3 + len..])
  }

  function ServerName(body: bytes): SniResult {
    if |body| < 2 || U16(body[0], body[1]) > |body| - 2 then Err(Malformed)
    else NameList(body[2..2 + U16(body[0], body[1])])
  }

  /** The body of the first server_name extension. */
  function FindExtension(ext: bytes): Result<bytes, SniError>
    decreases |ext|
  {
    if |ext| < 4 then Err(NoSni)
    else
      var len := U16(ext[2], ext[3]);
      if 4 + len > |ext| then Err(Malformed)
      else if U16(ext[0], ext[1]) == 0 then Ok(ext[4..4 + len])
      else FindExtension(ext[4 + len..])
  }

  function NameInExtensions(ext: bytes): SniResult {
    match FindExtension(ext)
    case Err(e) => Err(e)
    case Ok(body) => ServerName(body)
  }

  function QuicSni(hello: bytes): SniResult {
    if |hello| < 38 then Err(Malformed)
    else
      match AfterVectors(hello[38..])
      case None => Err(Malformed)
      case Some(b) =>
        if |b| < 2 then Err(NoSni)
        else if 2 + U16(b[0], b[1]) > |b| then Err(Malformed)
        else NameInExtensions(b[2..2 + U16(b[0], b[1])])
  }

  /** `parseServerNameExt`: the loop over the entries of the list. */
  method ParseServerNameExt(body: bytes) returns (r: SniResult)
    ensures r == ServerName(body)
  {
    if |body| < 2 {
      return Err(Malformed);
    }
    var listLen := U16(body[0], body[1]);
    if listLen > |body| - 2 {
      return Err(Malformed);
    }
    var b := body[2..2 + listLen];
    while |b| >= 3
      invariant ServerName(body) == NameList(b)
      decreases |b|
    {
      var nameLen := U16(b[1], b[2]);
      if 3 + nameLen > |b| {
        return Err(Malformed);
      }
      if b[0] == 0 {
        var name := b[3..3 + nameLen];
        var valid := IsValidHost(name);
        return if valid then Ok(Lower(name)) else Err(Malformed);
      }
      b := b[3 + nameLen..];
    }
    return Err(NoSni);
  }

  /** `parseSNI` of the QUIC path, walking an index through the message. */
  method ParseQuicSni(hello: bytes) returns (r: SniResult)
    ensures r == QuicSni(hello)
  {
    hide SkipVector1, SkipVector2;
    var i := 38;
    if |hello| < i + 1 {
      if |hello| == i {
        Vector1At(hello, i);
      }
      return Err(Malformed);
    }
    Vector1At(hello, i);
    i := i + 1 + hello[i];
    if i > |hello| {
      return Err(Malformed);
    }
    Vector2At(hello, i);
    if i + 2 > |hello| {
      return Err(Malformed);
    }
    i := i + 2 + U16(hello[i], hello[i + 1]);
    if i > |hello| {
      return Err(Malformed);
    }
    Vector1At(hello, i);
    if i + 1 > |hello| {
      return Err(Malformed);
    }
    i := i + 1 + hello[i];
    if i > |hello| {
      return Err(Malformed);
    }
    ghost var b := hello[i..];
    assert AfterVectors(hello[38..]) == Some(b);
    hide AfterVectors;
    if i + 2 > |hello| {
      return Err(NoSni);
    }
    assert b[0] == hello[i] && b[1] == hello[i + 1];
    var extTotal := U16(hello[i], hello[i + 1]);
    i := i + 2;
    if i + extTotal > |hello| {
      return Err(Malformed);
    }
    SliceOfTail(hello, i - 2, 2, 2 + extTotal);
    var ext := hello[i..i + extTotal];
    while |ext| >= 4
      invariant QuicSni(hello) == NameInExtensions(ext)
      decreases |ext|
    {
      var typ := U16(ext[0], ext[1]);
      var ln := U16(ext[2], ext[3]);
      if 4 + ln > |ext| {
        return Err(Malformed);
      }
      if typ == 0 {
        r := ParseServerNameExt(ext[4..4 + ln]);
        return;
      }
      ext := ext[4 + ln..];
    }
    return Err(NoSni);
  }

  // ---------- The TCP path ----------

  function FirstName(body: bytes): Option<bytes> {
    if |body| < 5 || 5 + U16(body[3], body[4]) > |body| then None
    else
      var name := Lower(Trim(body[5..5 + U16(body[3], body[4])]));
      if name == [] then None else Some(name)
  }

  function SniffExtensions(ext: bytes): Option<bytes> {
    match FindExtension(ext)
    case Err(_) => None
    case Ok(body) => FirstName(body)
  }

  function Min(a: nat, b: nat): nat {
    if a < b then a else b
  }

  /** The extension block is clipped to the bytes at hand. */
  function TcpSni(b: bytes): Option<bytes> {
    if |b| < 38 || b[0] != 1 then None
    else
      match AfterVectors(b[38..])
      case None => None
      case Some(e) =>
        if |e| < 2 then None
        else SniffExtensions(e[2..Min(|e|, 2 + U16(e[0], e[1]))])
  }

  /** One step of the extension walk, seen from a cursor. */
  lemma {:induction false} FindExtensionAt(b: bytes, p: nat, end: nat)
    requires p <= end <= |b|
    ensures FindExtension(b[p..end])
         == if end < p + 4 then Err(NoSni)
            else
              var len := U16(b[p + 2], b[p + 3]);
              if p + 4 + len > end then Err(Malformed)
              else if U16(b[p], b[p + 1]) == 0 then Ok(b[p + 4..p + 4 + len])
              else FindExtension(b[p + 4 + len..end])
  {
    if p + 4 <= end {
      var ext := b[p..end];
      assert ext[0] == b[p] && ext[1] == b[p + 1] && ext[2] == b[p + 2] && ext[3] == b[p + 3];
      var len := U16(b[p + 2], b[p + 3]);
      if p + 4 + len <= end {
        SliceOfSlice(b, p, end, 4, 4 + len);
        SliceOfSlice(b, p, end, 4 + len, end - p);
      }
    }
  }

  /** The extension loop of `parseSNI` on the TCP path. */
  method ParseTcpExtensions(b: bytes, start: nat, extEnd: nat) returns (r: Option<bytes>)
    requires start <= extEnd <= |b|
    ensures r == SniffExtensions(b[start..extEnd])
  {
    hide FindExtension;
    var p := start;
    while p + 4 <= extEnd
      invariant start <= p <= extEnd <= |b|
      invariant SniffExtensions(b[start..extEnd]) == SniffExtensions(b[p..extEnd])
      decreases extEnd - p
    {
      FindExtensionAt(b, p, extEnd);
      var etype := U16(b[p], b[p + 1]);
      var elen := U16(b[p + 2], b[p + 3]);
      p := p + 4;
      if p + elen > extEnd {
        return None;
      }
      if etype == 0 {
        var e := b[p..p + elen];
        if |e| < 5 || 5 + U16(e[3], e[4]) > |e| {
          return None;
        }
        var name := Lower(Trim(e[5..5 + U16(e[3], e[4])]));
        return if name == [] then None else Some(name);
      }
      p := p + elen;
    }
    FindExtensionAt(b, p, extEnd);
    return None;
  }

  /** `parseSNI` of the TCP path: the cursor may run past the end and is checked later. */
  method ParseTcpSni(b: bytes) returns (r: Option<bytes>)
    ensures r == TcpSni(b)
  {
    hide SkipVector1, SkipVector2, SniffExtensions;
    if |b| < 38 || b[0] != 1 {
      return None;
    }
    var p := 38;
    Vector1At(b, p);
    if p >= |b| {
      return None;
    }
    p := p + 1 + b[p];
    if p + 2 > |b| {
      if p <= |b| {
        Vector2At(b, p);
      }
      return None;
    }
    Vector2At(b, p);
    p := p + 2 + U16(b[p], b[p + 1]);
    if p >= |b| {
      if p == |b| {
        Vector1At(b, p);
      }
      return None;
    }
    Vector1At(b, p);
    p := p + 1 + b[p];
    if p + 2 > |b| {
      return None;
    }
    ghost var e := b[p..];
    assert AfterVectors(b[38..]) == Some(e);
    hide AfterVectors;
    var extEnd := p + 2 + U16(b[p], b[p + 1]);
    p := p + 2;
    if extEnd > |b| {
      extEnd := |b|;
    }
    assert extEnd - (p - 2) == Min(|e|, 2 + U16(e[0], e[1]));
    SliceOfTail(b, p - 2, 2, extEnd - (p - 2));
    r := ParseTcpExtensions(b, p, extEnd);
  }

  // ---------- The serialiser ----------

  datatype Extension = Extension(typ: nat, body: bytes)

  datatype Hello = Hello(
    version: bytes, random: bytes, sessionId: bytes, ciphers: bytes, compression: bytes,
    extensions: seq<Extension>)
  {
    predicate Valid() {
      && |version| == 2 && |random| == 32
      && |sessionId| < 256 && |ciphers| < 65536 && |compression| < 256
      && ValidExtensions(extensions)
      && |PutExtensions(extensions, [])| < 65536
    }
  }

  predicate ValidExtensions(es: seq<Extension>) {
    es == [] || (es[0].typ < 65536 && |es[0].body| < 65536 && ValidExtensions(es[1..]))
  }

  function Vector1(v: bytes, rest: bytes): bytes
    requires |v| < 256
  {
    [|v|] + v + rest
  }

  function Vector2(v: bytes, rest: bytes): bytes
    requires |v| < 65536
  {
    Be(|v|, 2) + v + rest
  }

  function PutExtensions(es: seq<Extension>, rest: bytes): bytes
    requires ValidExtensions(es)
  {
    if es == [] then rest
    else Be(es[0].typ, 2) + Vector2(es[0].body, PutExtensions(es[1..], rest))
  }

  function Tail(h: Hello, rest: bytes): bytes
    requires h.Valid()
  {
    Vector1(h.sessionId, Vector2(h.ciphers, Vector1(h.compression,
      Vector2(PutExtensions(h.extensions, []), rest))))
  }

  /** The handshake message: type, 24-bit length, body. */
  function Serialise(h: Hello): bytes
    requires h.Valid()
  {
    var body := h.version + h.random + Tail(h, []);
    [1] + Be(|body|, 3) + body
  }

  datatype NameEntry = NameEntry(typ: byte, name: bytes)

  predicate ValidEntries(es: seq<NameEntry>) {
    es == [] || (|es[0].name| < 65536 && ValidEntries(es[1..]))
  }

  function PutEntries(es: seq<NameEntry>): bytes
    requires ValidEntries(es)
  {
    if es == [] then [] else [es[0].typ] + Vector2(es[0].name, PutEntries(es[1..]))
  }

  function ServerNameBody(es: seq<NameEntry>): bytes
    requires ValidEntries(es) && |PutEntries(es)| < 65536
  {
    Vector2(PutEntries(es), [])
  }

  // ---------- What each parser makes of a serialised hello ----------

  lemma {:induction false} SkipWritten1(v: bytes, rest: bytes)
    requires |v| < 256
    ensures SkipVector1(Vector1(v, rest)) == Some(rest)
  {
    assert Vector1(v, rest)[1 + |v|..] == rest;
  }

  lemma {:induction false} ReadWritten2(v: bytes, rest: bytes)
    requires |v| < 65536
    ensures var b := Vector2(v, rest);
      && |b| == 2 + |v| + |rest| && U16(b[0], b[1]) == |v|
      && b[2..2 + |v|] == v && b[2 + |v|..] == rest
  {
    U16OfBe(|v|, v + rest);
    assert Vector2(v, rest) == Be(|v|, 2) + (v + rest);
  }

  lemma {:induction false} VectorsSkipped(h: Hello, rest: bytes)
    requires h.Valid()
    ensures AfterVectors(Tail(h, rest)) == Some(Vector2(PutExtensions(h.extensions, []), rest))
  {
    hide PutExtensions;
    hide Vector1, Vector2;
    var exts := PutExtensions(h.extensions, []);
    var comp := Vector1(h.compression, Vector2(exts, rest));
    var ciphers := Vector2(h.ciphers, comp);
    SkipWritten1(h.sessionId, ciphers);
    ReadWritten2(h.ciphers, comp);
    SkipWritten1(h.compression, Vector2(exts, rest));
    assert Tail(h, rest) == Vector1(h.sessionId, ciphers);
  }

  lemma {:induction false} TailAppend(h: Hello, rest: bytes)
    requires h.Valid()
    ensures Tail(h, []) + rest == Tail(h, rest)
  {
    hide PutExtensions;
    var exts := PutExtensions(h.extensions, []);
    var e := Vector2(exts, []);
    assert e + rest == Vector2(exts, rest);
    var c := Vector1(h.compression, e);
    assert c + rest == Vector1(h.compression, Vector2(exts, rest));
    assert Vector2(h.ciphers, c) + rest == Vector2(h.ciphers, c + rest);
    assert Vector1(h.sessionId, Vector2(h.ciphers, c)) + rest
        == Vector1(h.sessionId, Vector2(h.ciphers, c) + rest);
  }

  lemma {:induction false} MessageLayout(h: Hello, rest: bytes)
    requires h.Valid()
    ensures var m := Serialise(h) + rest;
      |m| >= 38 && m[0] == 1 && m[38..] == Tail(h, rest)
  {
    hide Tail;
    TailAppend(h, rest);
    var body := h.version + h.random + Tail(h, []);
    assert (Serialise(h) + rest)[38..] == Tail(h, []) + rest;
  }

  /** The first server_name extension of a list. */
  function FirstServerName(es: seq<Extension>): Result<bytes, SniError> {
    if es == [] then Err(NoSni)
    else if es[0].typ == 0 then Ok(es[0].body)
    else FirstServerName(es[1..])
  }

  lemma {:induction false} ExtensionWritten(e: Extension, tail: bytes)
    requires e.typ < 65536 && |e.body| < 65536
    ensures var ext := Be(e.typ, 2) + Vector2(e.body, tail);
      && |ext| == 4 + |e.body| + |tail|
      && U16(ext[0], ext[1]) == e.typ && U16(ext[2], ext[3]) == |e.body|
      && ext[4..4 + |e.body|] == e.body && ext[4 + |e.body|..] == tail
  {
    var v := Vector2(e.body, tail);
    U16OfBe(e.typ, v);
    ReadWritten2(e.body, tail);
    hide Vector2;
    var ext := Be(e.typ, 2) + v;
    assert ext[2..] == v;
    assert ext[2] == v[0] && ext[3] == v[1];
    assert ext[4..4 + |e.body|] == v[2..2 + |e.body|];
    assert ext[4 + |e.body|..] == v[2 + |e.body|..];
  }

  lemma {:induction false} ExtensionFound(es: seq<Extension>)
    requires ValidExtensions(es)
    ensures FindExtension(PutExtensions(es, [])) == FirstServerName(es)
  {
    hide Vector2, FindExtension;
    if es == [] {
      NoExtension();
    } else {
      FindWritten(es[0], PutExtensions(es[1..], []));
      ExtensionFound(es[1..]);
    }
  }

  lemma NoExtension()
    ensures FindExtension([]) == Err(NoSni)
  {
  }

  lemma FindWritten(e: Extension, tail: bytes)
    requires e.typ < 65536 && |e.body| < 65536
    ensures FindExtension(Be(e.typ, 2) + Vector2(e.body, tail))
         == if e.typ == 0 then Ok(e.body) else FindExtension(tail)
  {
    hide Vector2, Be;
    ExtensionWritten(e, tail);
  }

  lemma QuicFromVectors(m: bytes, v: bytes, exts: bytes)
    requires |m| >= 38 && AfterVectors(m[38..]) == Some(v)
    requires |v| >= 2 + |exts| && U16(v[0], v[1]) == |exts| && v[2..2 + |exts|] == exts
    ensures QuicSni(m) == NameInExtensions(exts)
  {
    hide AfterVectors, NameInExtensions;
  }

  lemma TcpFromVectors(m: bytes, v: bytes, exts: bytes)
    requires |m| >= 38 && m[0] == 1 && AfterVectors(m[38..]) == Some(v)
    requires |v| >= 2 + |exts| && U16(v[0], v[1]) == |exts| && v[2..2 + |exts|] == exts
    ensures TcpSni(m) == SniffExtensions(exts)
  {
    hide AfterVectors, SniffExtensions;
  }

  /** The strict parser reads the first server_name extension, whatever precedes it. */
  lemma {:induction false} QuicReadsSerialised(h: Hello)
    requires h.Valid()
    ensures QuicSni(Serialise(h))
         == match FirstServerName(h.extensions)
            case Err(e) => Err(e)
            case Ok(body) => ServerName(body)
  {
    hide Serialise, PutExtensions, Vector2, Tail, AfterVectors, QuicSni, FindExtension, FirstServerName, ServerName;
    MessageLayout(h, []);
    VectorsSkipped(h, []);
    ReadWritten2(PutExtensions(h.extensions, []), []);
    ExtensionFound(h.extensions);
    assert Serialise(h) + [] == Serialise(h);
    QuicFromVectors(Serialise(h), Vector2(PutExtensions(h.extensions, []), []), PutExtensions(h.extensions, []));
  }

  /** So does the lenient one, even when more bytes follow the message. */
  lemma {:induction false} TcpReadsSerialised(h: Hello, rest: bytes)
    requires h.Valid()
    ensures TcpSni(Serialise(h) + rest)
         == match FirstServerName(h.extensions)
            case Err(_) => None
            case Ok(body) => FirstName(body)
  {
    hide Serialise, PutExtensions, Vector2, Tail, AfterVectors, TcpSni, FindExtension, FirstServerName, FirstName;
    MessageLayout(h, rest);
    VectorsSkipped(h, rest);
    ReadWritten2(PutExtensions(h.extensions, []), rest);
    ExtensionFound(h.extensions);
    TcpFromVectors(Serialise(h) + rest, Vector2(PutExtensions(h.extensions, []), rest), PutExtensions(h.extensions,
        []));
  }

  // ---------- Names inside the extension ----------

  /** The first host_name entry, checked and lower-cased. */
  function FirstHostName(es: seq<NameEntry>): SniResult {
    if es == [] then Err(NoSni)
    else if es[0].typ == 0 then HostOf(es[0].name)
    else FirstHostName(es[1..])
  }

  /** The first entry whatever its type, trimmed and lower-cased. */
  function FirstEntry(es: seq<NameEntry>): Option<bytes> {
    if es == [] || Trim(es[0].name) == [] then None else Some(Lower(Trim(es[0].name)))
  }

  lemma {:induction false} EntryWritten(e: NameEntry, tail: bytes)
    requires |e.name| < 65536
    ensures var b := [e.typ] + Vector2(e.name, tail);
      && |b| == 3 + |e.name| + |tail| && b[0] == e.typ && U16(b[1], b[2]) == |e.name|
      && b[3..3 + |e.name|] == e.name && b[3 + |e.name|..] == tail
  {
    hide Vector2;
    var v := Vector2(e.name, tail);
    ReadWritten2(e.name, tail);
    var b := [e.typ] + v;
    assert b[1] == v[0] && b[2] == v[1];
    assert b[3..3 + |e.name|] == v[2..2 + |e.name|];
    assert b[3 + |e.name|..] == v[2 + |e.name|..];
  }

  lemma {:induction false} NameListWritten(es: seq<NameEntry>)
    requires ValidEntries(es)
    ensures NameList(PutEntries(es)) == FirstHostName(es)
  {
    hide Vector2, HostOf;
    if es != [] {
      EntryWritten(es[0], PutEntries(es[1..]));
      NameListWritten(es[1..]);
    }
  }

  lemma {:induction false} FirstNameRead(es: seq<NameEntry>)
    requires ValidEntries(es) && |PutEntries(es)| < 65536
    ensures FirstName(ServerNameBody(es)) == FirstEntry(es)
  {
    hide Vector2, Trim, Lower;
    var list := PutEntries(es);
    var body := ServerNameBody(es);
    ReadWritten2(list, []);
    if es != [] {
      EntryWritten(es[0], PutEntries(es[1..]));
      var n := |es[0].name|;
      assert body[2..] == list;
      assert body[3] == list[1] && body[4] == list[2];
      assert body[5..5 + n] == list[3..3 + n];
    }
  }

  lemma {:induction false} NamesRead(es: seq<NameEntry>)
    requires ValidEntries(es) && |PutEntries(es)| < 65536
    ensures ServerName(ServerNameBody(es)) == FirstHostName(es)
    ensures FirstName(ServerNameBody(es)) == FirstEntry(es)
  {
    hide Vector2, NameList, PutEntries, FirstHostName, FirstName;
    ReadWritten2(PutEntries(es), []);
    NameListWritten(es);
    FirstNameRead(es);
  }

  /** Both parsers recover the lower-cased host a serialised hello carries first, for any
      session id, cipher suites, compression methods and other extensions. */
  lemma {:induction false} BothRecoverHost(h: Hello, es: seq<NameEntry>, rest: bytes)
    requires h.Valid() && ValidEntries(es) && |PutEntries(es)| < 65536
    requires FirstServerName(h.extensions) == Ok(ServerNameBody(es))
    requires es != [] && es[0].typ == 0 && ValidHost(es[0].name)
    ensures QuicSni(Serialise(h)) == Ok(Lower(es[0].name))
    ensures TcpSni(Serialise(h) + rest) == Some(Lower(es[0].name))
  {
    hide QuicSni, TcpSni, Serialise, ServerNameBody, Trim;
    QuicReadsSerialised(h);
    TcpReadsSerialised(h, rest);
    NamesRead(es);
    TrimKeepsHost(es[0].name);
  }

  /** Exactly when the two paths name the same host: the first host_name entry is valid
      and the very first entry, of whatever type, reads the same. */
  lemma {:induction false} AgreeExactly(h: Hello, es: seq<NameEntry>, rest: bytes, name: bytes)
    requires h.Valid() && ValidEntries(es) && |PutEntries(es)| < 65536
    requires FirstServerName(h.extensions) == Ok(ServerNameBody(es))
    ensures (QuicSni(Serialise(h)) == Ok(name) && TcpSni(Serialise(h) + rest) == Some(name))
       <==> (FirstHostName(es) == Ok(name) && FirstEntry(es) == Some(name))
  {
    hide QuicSni, TcpSni, Serialise, ServerNameBody, FirstHostName, FirstEntry;
    QuicReadsSerialised(h);
    TcpReadsSerialised(h, rest);
    NamesRead(es);
  }

  /** A list whose first entry is not a host_name: the name x of type 1, then the host y. */
  function TwoEntries(): seq<NameEntry> {
    [NameEntry(1, [120]), NameEntry(0, [121])]
  }

  /** A hello with nothing but that list. */
  function SplitHello(): Hello
    requires ValidEntries(TwoEntries()) && |PutEntries(TwoEntries())| < 65536
  {
    Hello([3, 3], seq(32, _ => 0), [], [], [], [Extension(0, ServerNameBody(TwoEntries()))])
  }

  /** Of this one message the strict parser reads the host y and the lenient parser the name x. */
  lemma {:induction false} EntryTypeSplitsPaths(rest: bytes)
    ensures ValidEntries(TwoEntries()) && |PutEntries(TwoEntries())| < 65536 && SplitHello().Valid()
    ensures QuicSni(Serialise(SplitHello())) == Ok([121])
    ensures TcpSni(Serialise(SplitHello()) + rest) == Some([120])
  {
    hide QuicSni, TcpSni, Serialise, ServerNameBody, TwoEntries, SplitHello, Hello.Valid;
    TwoEntriesRead();
    SplitHelloValid();
    QuicReadsSerialised(SplitHello());
    TcpReadsSerialised(SplitHello(), rest);
    NamesRead(TwoEntries());
  }

  lemma TwoEntriesRead()
    ensures ValidEntries(TwoEntries()) && |PutEntries(TwoEntries())| == 8
    ensures FirstHostName(TwoEntries()) == Ok([121]) && FirstEntry(TwoEntries()) == Some([120])
  {
    var x, y := NameEntry(1, [120]), NameEntry(0, [121]);
    OneMoreEntry(x, [y]);
    OneMoreEntry(y, []);
    assert TwoEntries() == [x] + [y] && [y] == [y] + [];
    hide ValidEntries, PutEntries;
    assert HostByte(121) && ValidHost([121]);
    assert Lower([121]) == [121] && Lower([120]) == [120] && Trim([120]) == [120];
    assert TwoEntries()[1..] == [y];
    hide Lower, Trim, ValidHost, HostByte;
    assert FirstHostName([y]) == Ok([121]);
  }

  lemma OneMoreEntry(e: NameEntry, es: seq<NameEntry>)
    requires |e.name| < 65536
    ensures ValidEntries([e] + es) <==> ValidEntries(es)
    ensures ValidEntries([]) && PutEntries([]) == []
    ensures ValidEntries(es) ==> |PutEntries([e] + es)| == 3 + |e.name| + |PutEntries(es)|
  {
    assert ([e] + es)[1..] == es;
  }

  lemma SplitHelloValid()
    requires ValidEntries(TwoEntries()) && |PutEntries(TwoEntries())| == 8
    ensures SplitHello().Valid() && FirstServerName(SplitHello().extensions) == Ok(ServerNameBody(TwoEntries()))
  {
    var es := SplitHello().extensions;
    assert es[1..] == [] && PutExtensions([], []) == [];
  }
}

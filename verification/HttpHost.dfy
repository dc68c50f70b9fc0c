/** Peeking at the Host header of a plain HTTP request without consuming it, however the
    bytes arrive. */
module HttpHost {
  import opened Bytes
  import opened Common
  import CH = ClientHello

  const PEEK_LIMIT := 4096

  const CR: byte := 13
  const LF: byte := 10

  // ---------- Reading the header text ----------

  /** Where `pattern` first occurs at or after `from`. */
  predicate OccursAt(text: bytes, pattern: bytes, i: nat) {
    i + |pattern| <= |text| && text[i..i + |pattern|] == pattern
  }

  function Find(text: bytes, pattern: bytes, from: nat): (r: Option<nat>)
    requires from <= |text|
    ensures r.Some? ==> from <= r.value && OccursAt(text, pattern, r.value)
    ensures r.Some? ==> forall i | from <= i < r.value :: !OccursAt(text, pattern, i)
    ensures r.None? ==> forall i | from <= i :: !OccursAt(text, pattern, i)
    decreases |text| - from
  {
    if OccursAt(text, pattern, from) then Some(from)
    else if from == |text| then None
    else Find(text, pattern, from + 1)
  }

  const CRLF: bytes := [CR, LF]
  const HEADER_END: bytes := [CR, LF, CR, LF]
  const HOST_PREFIX: bytes := [104, 111, 115, 116, 58]  // "host:"

  /** Splitting at line ends. */
  function Lines(text: bytes): (r: seq<bytes>)
    ensures r != []
    decreases |text|
  {
    match Find(text, CRLF, 0)
    case None => [text]
    case Some(i) => [text[..i]] + Lines(text[i + 2..])
  }

  /** The value a line gives for Host, empty when it gives none. */
  function HostValue(line: bytes): bytes {
    if |line| > 5 && CH.Lower(line[..5]) == HOST_PREFIX then CH.Lower(CH.Trim(line[5..])) else []
  }

  function FirstHost(lines: seq<bytes>): Option<bytes> {
    if lines == [] then None
    else if HostValue(lines[0]) != [] then Some(HostValue(lines[0]))
    else FirstHost(lines[1..])
  }

  /** `hostFromHeaderText`: the first line with a non-empty Host value. */
  method HostFromHeaderText(text: bytes) returns (r: Option<bytes>)
    ensures r == FirstHost(Lines(text))
  {
    var lines := Lines(text);
    var k := 0;
    while k < |lines|
      invariant 0 <= k <= |lines|
      invariant FirstHost(lines) == FirstHost(lines[k..])
    {
      var line := lines[k];
      if |line| > 5 && CH.Lower(line[..5]) == HOST_PREFIX {
        var h := CH.Lower(CH.Trim(line[5..]));
        if h != [] {
          return Some(h);
        }
      }
      k := k + 1;
    }
    return None;
  }

  // ---------- The buffered reader ----------

  /** How the network cuts the stream: from `have` buffered bytes the next read leaves
      `grow(have)`, more than before unless the stream has ended. */
  ghost predicate Segmentation(grow: nat -> nat, total: nat) {
    forall have: nat | have < total :: have < grow(have) <= total
  }

  /** A reader over everything the client will ever send. Peeking moves `buffered`, never
      the read position, which stays at the start of the stream. */
  class Reader {
    const stream: bytes
    const grow: nat -> nat
    var buffered: nat
    var position: nat

    ghost predicate Valid()
      reads this
    {
      Segmentation(grow, |stream|) && position == 0 && buffered <= |stream|
    }

    constructor (stream: bytes, grow: nat -> nat)
      requires Segmentation(grow, |stream|)
      ensures Valid() && this.stream == stream && this.grow == grow && buffered == 0
    {
      this.stream := stream;
      this.grow := grow;
      buffered, position := 0, 0;
    }

    /** Blocks until `n` bytes are buffered or the stream ends. */
    method Peek(n: nat) returns (b: bytes, ok: bool)
      requires Valid()
      modifies this`buffered
      ensures Valid() && buffered >= old(buffered)
      ensures ok <==> n <= |stream|
      ensures ok ==> b == stream[..n] && n <= buffered
      ensures !ok ==> b == stream && buffered == |stream|
      ensures n <= old(buffered) ==> buffered == old(buffered)
    {
      while buffered < n && buffered < |stream|
        invariant old(buffered) <= buffered <= |stream|
        invariant n <= old(buffered) ==> buffered == old(buffered)
        decreases |stream| - buffered
      {
        buffered := grow(buffered);
      }
      if buffered < n {
        assert stream[..buffered] == stream;
        return stream[..buffered], false;
      }
      return stream[..n], true;
    }
  }

  /** One pass over the whole stream: up to the header end if it lies within the first
      4096 bytes, else over as much as may be peeked. An empty stream is an error. */
  function OnePass(stream: bytes): Option<bytes> {
    if |stream| == 0 then None
    else
      var seen := stream[..CH.Min(|stream|, PEEK_LIMIT)];
      match Find(seen, HEADER_END, 0)
      case None => FirstHost(Lines(seen))
      case Some(end) => FirstHost(Lines(seen[..end]))
  }

  /** `peekHTTPHost`: whatever the segmentation, the answer is the one-pass answer and no
      byte is consumed. Every round waits for at least one more byte. */
  method PeekHttpHost(br: Reader) returns (r: Option<bytes>)
    requires br.Valid()
    modifies br`buffered
    ensures br.Valid()
    ensures r == OnePass(br.stream)
  {
    hide Segmentation, Lines, FirstHost;
    var _, arrived := br.Peek(1);
    if !arrived {
      return None;
    }
    ghost var limit := CH.Min(|br.stream|, PEEK_LIMIT);
    while true
      invariant br.Valid() && 0 < br.buffered
      decreases |br.stream| - br.buffered
    {
      var n := br.buffered;
      if n > PEEK_LIMIT {
        n := PEEK_LIMIT;
      }
      var text, _ := br.Peek(n);
      FindInPrefix(br.stream[..limit], n);
      assert br.stream[..limit][..n] == text;
      var end := Find(text, HEADER_END, 0);
      if end.Some? {
        assert text[..end.value] == br.stream[..limit][..end.value];
        r := HostFromHeaderText(text[..end.value]);
        return;
      }
      if n >= PEEK_LIMIT {
        r := HostFromHeaderText(text);
        return;
      }
      var _, more := br.Peek(n + 1);
      if !more {
        r := HostFromHeaderText(text);
        return;
      }
    }
  }

  /** A terminator found in a prefix is the one found in the whole. */
  lemma FindInPrefix(text: bytes, n: nat)
    requires n <= |text|
    ensures Find(text[..n], HEADER_END, 0).Some? ==>
      Find(text, HEADER_END, 0) == Find(text[..n], HEADER_END, 0)
  {
    var found := Find(text[..n], HEADER_END, 0);
    if found.Some? {
      var i := found.value;
      assert OccursAt(text, HEADER_END, i) by {
        assert text[..n][i..i + 4] == text[i..i + 4];
      }
      forall j | 0 <= j < i
        ensures !OccursAt(text, HEADER_END, j)
      {
        assert text[..n][j..j + 4] == text[j..j + 4];
        assert !OccursAt(text[..n], HEADER_END, j);
      }
    }
  }

  // ---------- Requests ----------

  /** A header line contains no CRLF and does not end in CR. */
  ghost predicate LineText(line: bytes) {
    && (forall i :: !OccursAt(line, CRLF, i))
    && (line == [] || line[|line| - 1] != CR)
  }

  function Join(lines: seq<bytes>): bytes
    requires lines != []
  {
    if |lines| == 1 then lines[0] else lines[0] + CRLF + Join(lines[1..])
  }

  lemma NoLineEndInside(line: bytes, rest: bytes)
    requires LineText(line)
    ensures Find(line + CRLF + rest, CRLF, 0) == Some(|line|)
  {
    var text := line + CRLF + rest;
    assert text[|line|..|line| + 2] == CRLF;
    assert OccursAt(text, CRLF, |line|);
    forall j | 0 <= j < |line|
      ensures !OccursAt(text, CRLF, j)
    {
      if j + 1 < |line| {
        assert text[j..j + 2] == line[j..j + 2];
        assert !OccursAt(line, CRLF, j);
      } else {
        assert text[j..j + 2][0] == line[j] != CRLF[0];
      }
    }
  }

  lemma {:induction false} LinesOfJoin(lines: seq<bytes>)
    requires lines != [] && forall i | 0 <= i < |lines| :: LineText(lines[i])
    ensures Lines(Join(lines)) == lines
  {
    if |lines| == 1 {
      assert Find(lines[0], CRLF, 0) == None;
    } else {
      var rest := Join(lines[1..]);
      var text := lines[0] + CRLF + rest;
      NoLineEndInside(lines[0], rest);
      LinesOfJoin(lines[1..]);
      assert text[..|lines[0]|] == lines[0];
      assert text[|lines[0]| + 2..] == rest;
    }
  }

  ghost predicate HeaderLines(lines: seq<bytes>) {
    lines != [] && forall i | 0 <= i < |lines| :: LineText(lines[i]) && lines[i] != []
  }

  /** A non-empty line does not start with CRLF, whatever follows it. */
  lemma StartsWithoutCrlf(line: bytes, rest: bytes)
    requires LineText(line) && line != []
    ensures !OccursAt(line + rest, CRLF, 0)
  {
    var text := line + rest;
    if |line| == 1 {
      assert |text| >= 2 ==> text[0..2][0] == line[0] != CRLF[0];
    } else {
      assert text[0..2] == line[0..2];
      assert !OccursAt(line, CRLF, 0);
    }
  }

  lemma OccursSplit(text: bytes, j: nat)
    requires OccursAt(text, HEADER_END, j)
    ensures OccursAt(text, CRLF, j) && OccursAt(text, CRLF, j + 2)
  {
    assert text[j..j + 2] == text[j..j + 4][..2] == HEADER_END[..2];
    assert text[j + 2..j + 4] == text[j..j + 4][2..] == HEADER_END[2..];
  }

  lemma OccursInTail(front: bytes, text: bytes, pattern: bytes, j: nat)
    requires |front| <= j
    ensures OccursAt(front + text, pattern, j) == OccursAt(text, pattern, j - |front|)
  {
    if j + |pattern| <= |front + text| {
      assert (front + text)[j..j + |pattern|] == text[j - |front|..j - |front| + |pattern|];
    }
  }

  /** The header end does not occur inside the joined lines. */
  lemma {:induction false} NoHeaderEndInside(lines: seq<bytes>, body: bytes, j: nat)
    requires HeaderLines(lines) && j < |Join(lines)|
    ensures !OccursAt(Join(lines) + HEADER_END + body, HEADER_END, j)
    decreases |lines|
  {
    var line := lines[0];
    var text := Join(lines) + HEADER_END + body;
    if |lines| == 1 {
      var after := CRLF + body;
      assert text == line + CRLF + after;
      NoLineEndInside(line, after);
      assert !OccursAt(text, CRLF, j);
    } else {
      var rest := Join(lines[1..]) + HEADER_END + body;
      assert text == line + CRLF + rest;
      NoLineEndInside(line, rest);
      if j < |line| {
        assert !OccursAt(text, CRLF, j);
      } else if j < |line| + 2 {
        NextLineStarts(lines[1..], HEADER_END + body);
        assert Join(lines[1..]) + (HEADER_END + body) == rest;
        OccursInTail(line + CRLF, rest, CRLF, |line| + 2);
        assert j == |line| + 1 && j + 4 <= |text| ==> text[j..j + 4][0] == LF != HEADER_END[0];
      } else {
        NoHeaderEndInside(lines[1..], body, j - |line| - 2);
        OccursInTail(line + CRLF, rest, HEADER_END, j);
      }
    }
    if OccursAt(text, HEADER_END, j) {
      OccursSplit(text, j);
      assert false;
    }
  }

  lemma NextLineStarts(lines: seq<bytes>, rest: bytes)
    requires HeaderLines(lines)
    ensures !OccursAt(Join(lines) + rest, CRLF, 0)
  {
    var tail := if |lines| == 1 then rest else CRLF + Join(lines[1..]) + rest;
    assert Join(lines) + rest == lines[0] + tail;
    StartsWithoutCrlf(lines[0], tail);
  }

  /** For every request whose header ends within the first 4096 bytes, the answer is the
      first non-empty Host value among its lines. */
  lemma HostOfRequest(lines: seq<bytes>, body: bytes)
    requires HeaderLines(lines) && |Join(lines)| + 4 <= PEEK_LIMIT
    ensures OnePass(Join(lines) + HEADER_END + body) == FirstHost(lines)
  {
    var header := Join(lines);
    var stream := header + HEADER_END + body;
    var seen := stream[..CH.Min(|stream|, PEEK_LIMIT)];
    var cut := seen[|header| + 4..];
    assert seen == header + HEADER_END + cut;
    EndBehind(header, cut);
    forall j | 0 <= j < |header|
      ensures !OccursAt(seen, HEADER_END, j)
    {
      NoHeaderEndInside(lines, cut, j);
    }
    hide Join, OccursAt, FirstHost;
    assert Find(seen, HEADER_END, 0) == Some(|header|);
    LinesOfJoin(lines);
  }

  /** A request that starts with the header end names no host, whatever follows. */
  lemma {:induction false} NoHeader(body: bytes)
    ensures OnePass(HEADER_END + body) == None
  {
    var stream := HEADER_END + body;
    var seen := stream[..CH.Min(|stream|, PEEK_LIMIT)];
    assert seen[0..4] == HEADER_END;
    assert OccursAt(seen, HEADER_END, 0);
    assert seen[..0] == [];
    var nothing: seq<bytes> := [[]];
    assert nothing[1..] == [];
    assert Lines([]) == nothing && FirstHost(nothing) == None;
  }

  lemma EndBehind(header: bytes, cut: bytes)
    ensures var seen := header + HEADER_END + cut; OccursAt(seen, HEADER_END, |header|) && seen[..|header|] == header
  {
  }
}

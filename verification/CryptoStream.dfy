/** Reassembly of the CRYPTO stream by offset, section 19.6 of RFC 9000. */
module CryptoStream {
  import opened Bytes
  import opened Common
  import opened MapSum
  import opened QuicFrames

  const MAX_CRYPTO_BYTES := 65536

  datatype Buffer = Buffer(segments: map<nat, bytes>, total: nat)

  const EMPTY := Buffer(map[], 0)

  ghost function Lengths(segments: map<nat, bytes>): map<nat, nat> {
    map off | off in segments :: |segments[off]|
  }

  /** The stored bytes are counted exactly, stay within budget, and no segment is empty. */
  ghost predicate Valid(b: Buffer) {
    && (forall off | off in b.segments :: b.segments[off] != [] && off <= MAX_CRYPTO_BYTES)
    && b.total == Sum(Lengths(b.segments)) <= MAX_CRYPTO_BYTES
  }

  /** What one offer does to the buffer: empty, far-off, over-budget and repeated offers
      are dropped. */
  function Add(b: Buffer, o: Offer): Buffer {
    if |o.data| == 0 || o.off > MAX_CRYPTO_BYTES then b
    else if b.total + |o.data| > MAX_CRYPTO_BYTES then b
    else if o.off in b.segments then b
    else Buffer(b.segments[o.off := o.data], b.total + |o.data|)
  }

  function AddAll(b: Buffer, os: seq<Offer>): Buffer
    decreases os
  {
    if os == [] then b else AddAll(Add(b, os[0]), os[1..])
  }

  lemma AddKeepsValid(b: Buffer, o: Offer)
    requires Valid(b)
    ensures Valid(Add(b, o))
  {
    if Add(b, o) != b {
      SumInsert(Lengths(b.segments), o.off, |o.data|);
      assert Lengths(Add(b, o).segments) == Lengths(b.segments)[o.off := |o.data|];
    }
  }

  lemma {:induction false} AddAllKeepsValid(b: Buffer, os: seq<Offer>)
    requires Valid(b)
    ensures Valid(AddAll(b, os))
    decreases os
  {
    if os != [] {
      AddKeepsValid(b, os[0]);
      AddAllKeepsValid(Add(b, os[0]), os[1..]);
    }
  }

  lemma EmptyIsValid()
    ensures Valid(EMPTY)
  {
    assert Lengths(EMPTY.segments) == map[];
  }

  lemma {:induction false} AddAllConcat(b: Buffer, os: seq<Offer>, more: seq<Offer>)
    ensures AddAll(b, os + more) == AddAll(AddAll(b, os), more)
    decreases os
  {
    if os == [] {
      assert os + more == more;
    } else {
      assert (os + more)[1..] == os[1..] + more;
      AddAllConcat(Add(b, os[0]), os[1..], more);
    }
  }

  // ---------- Assembling ----------

  ghost function Ahead(segments: map<nat, bytes>, pos: nat): set<nat> {
    set off | off in segments && off >= pos
  }

  lemma AheadShrinks(segments: map<nat, bytes>, pos: nat, next: nat)
    requires pos in segments && pos < next
    ensures |Ahead(segments, next)| < |Ahead(segments, pos)|
  {
    SubsetSmaller(Ahead(segments, next), Ahead(segments, pos), pos);
  }

  lemma SubsetSmaller(small: set<nat>, big: set<nat>, x: nat)
    requires small <= big && x in big && x !in small
    ensures |small| < |big|
  {
    var rest := big - small;
    assert x in rest;
    assert big == small + rest;
    assert |big| == |small| + |rest|;
  }

  ghost predicate NoEmpty(segments: map<nat, bytes>) {
    forall off | off in segments :: segments[off] != []
  }

  /** The contiguous bytes the segments yield from position `pos` on. */
  ghost function Contiguous(segments: map<nat, bytes>, pos: nat): bytes
    requires NoEmpty(segments)
    decreases |Ahead(segments, pos)|
  {
    if pos !in segments then []
    else
      AheadShrinks(segments, pos, pos + |segments[pos]|);
      segments[pos] + Contiguous(segments, pos + |segments[pos]|)
  }

  /** A complete ClientHello at the front of `buf`: type 1, 24-bit length, body. */
  function CompleteHello(buf: bytes): Option<bytes> {
    if |buf| < 4 || buf[0] != 0x01 then None
    else if |buf| < HelloLength(buf) then None
    else Some(buf[..HelloLength(buf)])
  }

  function HelloLength(buf: bytes): nat
    requires |buf| >= 4
  {
    4 + (buf[1] as int) * 65536 + (buf[2] as int) * 256 + buf[3]
  }

  lemma CompleteHelloOfPrefix(buf: bytes, stream: bytes)
    requires buf <= stream
    ensures CompleteHello(buf).Some? ==> CompleteHello(buf) == CompleteHello(stream)
    ensures CompleteHello(stream).Some? ==>
      CompleteHello(buf) == if |buf| >= HelloLength(stream) then CompleteHello(stream) else None
  {
    if |buf| >= 4 && |buf| >= HelloLength(buf) {
      assert HelloLength(buf) == HelloLength(stream);
      assert buf[..HelloLength(buf)] == stream[..HelloLength(buf)];
    }
  }

  ghost function Assemble(b: Buffer): Option<bytes>
    requires NoEmpty(b.segments)
  {
    CompleteHello(Contiguous(b.segments, 0))
  }

  // ---------- Slices of one stream ----------

  ghost predicate SliceOf(stream: bytes, o: Offer) {
    o.off + |o.data| <= |stream| && o.data == stream[o.off..o.off + |o.data|]
  }

  ghost predicate HoldsSlices(b: Buffer, stream: bytes) {
    forall off | off in b.segments :: SliceOf(stream, Offer(off, b.segments[off]))
  }

  lemma {:induction false} SlicesStaySlices(b: Buffer, os: seq<Offer>, stream: bytes)
    requires HoldsSlices(b, stream)
    requires forall i | 0 <= i < |os| :: SliceOf(stream, os[i])
    ensures HoldsSlices(AddAll(b, os), stream)
    decreases os
  {
    if os != [] {
      assert HoldsSlices(Add(b, os[0]), stream);
      SlicesStaySlices(Add(b, os[0]), os[1..], stream);
    }
  }

  lemma {:induction false} ContiguousIsSlice(b: Buffer, stream: bytes, pos: nat)
    requires NoEmpty(b.segments) && HoldsSlices(b, stream) && pos <= |stream|
    ensures SliceOf(stream, Offer(pos, Contiguous(b.segments, pos)))
    decreases |Ahead(b.segments, pos)|
  {
    if pos in b.segments {
      var seg := b.segments[pos];
      assert SliceOf(stream, Offer(pos, seg));
      AheadShrinks(b.segments, pos, pos + |seg|);
      ContiguousIsSlice(b, stream, pos + |seg|);
      var more := Contiguous(b.segments, pos + |seg|);
      assert stream[pos..pos + |seg + more|] == seg + more;
    }
  }

  /** Whatever slices of one stream arrive, overlapping or not and in any order, what is
      assembled is a prefix of that stream, and it is the ClientHello the stream starts with. */
  lemma {:induction false} AssembledIsPrefix(os: seq<Offer>, stream: bytes)
    requires forall i | 0 <= i < |os| :: SliceOf(stream, os[i])
    ensures Valid(AddAll(EMPTY, os))
    ensures Contiguous(AddAll(EMPTY, os).segments, 0) <= stream
    ensures Assemble(AddAll(EMPTY, os)).Some? ==>
      Assemble(AddAll(EMPTY, os)) == CompleteHello(stream)
  {
    hide AddAll, CompleteHello;
    EmptyIsValid();
    AddAllKeepsValid(EMPTY, os);
    SlicesStaySlices(EMPTY, os, stream);
    var b := AddAll(EMPTY, os);
    assert NoEmpty(b.segments);
    ContiguousIsSlice(b, stream, 0);
    var got := Contiguous(b.segments, 0);
    assert got == stream[0..|got|];
    CompleteHelloOfPrefix(got, stream);
  }

  /** Overlapping slices may cover a stretch that is nevertheless never assembled: a
      segment is only found at the exact offset where the previous one ended. */
  lemma OverlapCanStall(stream: bytes)
    requires |stream| == 10
    ensures var os := [Offer(0, stream[..5]), Offer(3, stream[3..])];
      && (forall i | 0 <= i < |os| :: SliceOf(stream, os[i]))
      && NoEmpty(AddAll(EMPTY, os).segments)
      && Contiguous(AddAll(EMPTY, os).segments, 0) == stream[..5]
  {
    var os := [Offer(0, stream[..5]), Offer(3, stream[3..])];
    var b1 := Add(EMPTY, os[0]);
    var b := Add(b1, os[1]);
    assert os[1..][1..] == [];
    assert AddAll(EMPTY, os) == AddAll(b1, os[1..]) == AddAll(b, []) == b;
    assert b.segments == map[0 := stream[..5], 3 := stream[3..]];
    AheadShrinks(b.segments, 0, 5);
    assert Contiguous(b.segments, 5) == [];
  }

  // ---------- One cut of a stream, delivered in any order ----------

  function Concat(frags: seq<bytes>): bytes {
    if frags == [] then [] else Concat(frags[..|frags| - 1]) + frags[|frags| - 1]
  }

  function Start(frags: seq<bytes>, i: nat): nat
    requires i <= |frags|
  {
    |Concat(frags[..i])|
  }

  function Fragment(frags: seq<bytes>, i: nat): Offer
    requires i < |frags|
  {
    Offer(Start(frags, i), frags[i])
  }

  predicate IsCut(frags: seq<bytes>) {
    && (forall i | 0 <= i < |frags| :: frags[i] != [])
    && |Concat(frags)| <= MAX_CRYPTO_BYTES
  }

  lemma StartStep(frags: seq<bytes>, i: nat)
    requires i < |frags|
    ensures Start(frags, i + 1) == Start(frags, i) + |frags[i]|
    ensures Concat(frags[..i + 1]) == Concat(frags[..i]) + frags[i]
  {
    assert frags[..i + 1][..i] == frags[..i];
  }

  lemma {:induction false} StartMonotone(frags: seq<bytes>, i: nat, j: nat)
    requires IsCut(frags) && i <= j <= |frags|
    ensures Start(frags, i) <= Start(frags, j)
    ensures i < j ==> Start(frags, i) < Start(frags, j)
    ensures Concat(frags[..i]) <= Concat(frags[..j])
    decreases j
  {
    if i < j {
      StartStep(frags, j - 1);
      StartMonotone(frags, i, j - 1);
    }
  }

  /** The buffer holds exactly the fragments in `got`. */
  ghost predicate Stored(b: Buffer, frags: seq<bytes>, got: set<nat>) {
    && (forall i | i in got :: i < |frags| && Start(frags, i) in b.segments
                            && b.segments[Start(frags, i)] == frags[i])
    && (forall off | off in b.segments :: exists i :: i in got && off == Start(frags, i))
    && b.total == Received(frags, got, |frags|)
  }

  ghost function Received(frags: seq<bytes>, got: set<nat>, n: nat): nat
    requires n <= |frags|
  {
    if n == 0 then 0
    else Received(frags, got, n - 1) + if n - 1 in got then |frags[n - 1]| else 0
  }

  lemma {:induction false} ReceivedNew(frags: seq<bytes>, got: set<nat>, i: nat, n: nat)
    requires i < |frags| && n <= |frags| && i !in got
    ensures Received(frags, got + {i}, n) == Received(frags, got, n) + if i < n then |frags[i]| else 0
    ensures Received(frags, got, n) + (if i < n then |frags[i]| else 0) <= Start(frags, n)
  {
    if n > 0 {
      StartStep(frags, n - 1);
      ReceivedNew(frags, got, i, n - 1);
    }
  }

  lemma NotStored(b: Buffer, frags: seq<bytes>, got: set<nat>, i: nat)
    requires IsCut(frags) && Stored(b, frags, got) && i <= |frags|
    requires i == |frags| || i !in got
    ensures Start(frags, i) !in b.segments
  {
    forall j | j in got
      ensures Start(frags, j) != Start(frags, i)
    {
      StartMonotone(frags, if i < j then i else j, if i < j then j else i);
    }
  }

  lemma {:induction false} AddFragment(b: Buffer, frags: seq<bytes>, got: set<nat>, i: nat)
    requires IsCut(frags) && Stored(b, frags, got) && i < |frags|
    ensures Stored(Add(b, Fragment(frags, i)), frags, got + {i})
  {
    if i in got {
      assert got + {i} == got;
    } else {
      ReceivedNew(frags, got, i, |frags|);
      assert frags[..|frags|] == frags;
      NotStored(b, frags, got, i);
      StartMonotone(frags, i, |frags|);
    }
  }

  /** The offers a delivery schedule makes: any order, any repetitions. */
  function Delivery(frags: seq<bytes>, order: seq<nat>): seq<Offer>
    requires forall i | 0 <= i < |order| :: order[i] < |frags|
  {
    if order == [] then [] else [Fragment(frags, order[0])] + Delivery(frags, order[1..])
  }

  ghost function Elements(order: seq<nat>): set<nat> {
    set i | 0 <= i < |order| :: order[i]
  }

  lemma {:induction false} Deliver(b: Buffer, frags: seq<bytes>, got: set<nat>, order: seq<nat>)
    requires IsCut(frags) && Stored(b, frags, got)
    requires forall i | 0 <= i < |order| :: order[i] < |frags|
    ensures Stored(AddAll(b, Delivery(frags, order)), frags, got + Elements(order))
    decreases order
  {
    if order == [] {
      assert got + Elements(order) == got;
    } else {
      AddFragment(b, frags, got, order[0]);
      Deliver(Add(b, Fragment(frags, order[0])), frags, got + {order[0]}, order[1..]);
      ElementsStep(order);
      assert got + {order[0]} + Elements(order[1..]) == got + Elements(order);
      assert Delivery(frags, order)[1..] == Delivery(frags, order[1..]);
    }
  }

  lemma ElementsStep(order: seq<nat>)
    requires order != []
    ensures Elements(order) == {order[0]} + Elements(order[1..])
  {
    forall x | x in Elements(order)
      ensures x in {order[0]} + Elements(order[1..])
    {
      var i :| 0 <= i < |order| && order[i] == x;
      assert i > 0 ==> order[1..][i - 1] == x;
    }
    forall x | x in Elements(order[1..])
      ensures x in Elements(order)
    {
      var i :| 0 <= i < |order[1..]| && order[1..][i] == x;
      assert order[i + 1] == x;
    }
  }

  /** The first fragment from `i` on that has not arrived. */
  ghost function FirstMissing(frags: seq<bytes>, got: set<nat>, i: nat): (k: nat)
    requires i <= |frags|
    ensures i <= k <= |frags|
    ensures forall j | i <= j < k :: j in got
    ensures k < |frags| ==> k !in got
    decreases |frags| - i
  {
    if i == |frags| || i !in got then i else FirstMissing(frags, got, i + 1)
  }

  lemma StoredAt(b: Buffer, frags: seq<bytes>, got: set<nat>, i: nat)
    requires Stored(b, frags, got) && i in got
    ensures i < |frags| && Start(frags, i) in b.segments
    ensures b.segments[Start(frags, i)] == frags[i]
  {
  }

  lemma StoredIsNonEmpty(b: Buffer, frags: seq<bytes>, got: set<nat>)
    requires IsCut(frags) && Stored(b, frags, got)
    ensures NoEmpty(b.segments)
  {
  }

  lemma {:induction false} ContiguousOfStored(b: Buffer, frags: seq<bytes>, got: set<nat>, i: nat)
    requires IsCut(frags) && Stored(b, frags, got) && i <= |frags| && NoEmpty(b.segments)
    ensures Concat(frags[..i]) + Contiguous(b.segments, Start(frags, i))
         == Concat(frags[..FirstMissing(frags, got, i)])
    decreases |frags| - i
  {
    hide Stored, IsCut;
    var done := Concat(frags[..i]);
    if i < |frags| && i in got {
      var next := Start(frags, i) + |frags[i]|;
      StartStep(frags, i);
      StoredAt(b, frags, got, i);
      ContiguousOfStored(b, frags, got, i + 1);
      assert Contiguous(b.segments, Start(frags, i)) == frags[i] + Contiguous(b.segments, next);
      assert done + (frags[i] + Contiguous(b.segments, next))
          == done + frags[i] + Contiguous(b.segments, next);
    } else {
      NotStored(b, frags, got, i);
      assert done + [] == done;
    }
  }

  /** For any cut of a stream that starts with a ClientHello and any delivery order with
      exact retransmissions, the hello comes out as soon as the fragments contiguous from
      offset zero cover it, and nothing comes out before. */
  lemma {:induction false} HelloExactlyWhenCovered(frags: seq<bytes>, order: seq<nat>)
    requires IsCut(frags)
    requires forall i | 0 <= i < |order| :: order[i] < |frags|
    requires CompleteHello(Concat(frags)).Some?
    ensures NoEmpty(AddAll(EMPTY, Delivery(frags, order)).segments)
    ensures var covered := Start(frags, FirstMissing(frags, Elements(order), 0));
      Assemble(AddAll(EMPTY, Delivery(frags, order)))
        == if covered >= HelloLength(Concat(frags)) then CompleteHello(Concat(frags)) else None
  {
    hide AddAll, CompleteHello, IsCut;
    var b := AddAll(EMPTY, Delivery(frags, order));
    var k := FirstMissing(frags, Elements(order), 0);
    AssembledContiguous(frags, order);
    StartMonotone(frags, k, |frags|);
    assert frags[..|frags|] == frags;
    CompleteHelloOfPrefix(Concat(frags[..k]), Concat(frags));
  }

  lemma {:induction false} AssembledContiguous(frags: seq<bytes>, order: seq<nat>)
    requires IsCut(frags)
    requires forall i | 0 <= i < |order| :: order[i] < |frags|
    ensures NoEmpty(AddAll(EMPTY, Delivery(frags, order)).segments)
    ensures Contiguous(AddAll(EMPTY, Delivery(frags, order)).segments, 0)
         == Concat(frags[..FirstMissing(frags, Elements(order), 0)])
  {
    hide AddAll;
    var b := AddAll(EMPTY, Delivery(frags, order));
    ReceivedNothing(frags, |frags|);
    Deliver(EMPTY, frags, {}, order);
    assert {} + Elements(order) == Elements(order);
    StoredIsNonEmpty(b, frags, Elements(order));
    ContiguousOfStored(b, frags, Elements(order), 0);
    assert frags[..0] == [];
    assert Concat([]) + Contiguous(b.segments, 0) == Contiguous(b.segments, 0);
  }

  lemma {:induction false} ReceivedNothing(frags: seq<bytes>, n: nat)
    requires n <= |frags|
    ensures Received(frags, {}, n) == 0
  {
    if n > 0 {
      ReceivedNothing(frags, n - 1);
    }
  }
}

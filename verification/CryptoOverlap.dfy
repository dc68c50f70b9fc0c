/** How far the reassembly gets when the slices of a stream overlap: exactly as far as a chain of
    stored slices, each starting where the one before it ends. */
module CryptoOverlap {
  import opened Bytes
  import opened CryptoStream
  import opened QuicFrames

  /** The first offer with data at its offset, which is the one that is stored. */
  predicate IsFirst(os: seq<Offer>, k: nat)
    requires k < |os|
  {
    && os[k].data != [] && os[k].off <= MAX_CRYPTO_BYTES
    && forall j | 0 <= j < k && os[j].data != [] :: os[j].off != os[k].off
  }

  /** The bytes of all first offers together. */
  function FirstsTotal(os: seq<Offer>): nat {
    if os == [] then 0
    else FirstsTotal(os[..|os| - 1]) + if IsFirst(os, |os| - 1) then |os[|os| - 1].data| else 0
  }

  ghost predicate StoresFirsts(b: Buffer, os: seq<Offer>) {
    && (forall k | 0 <= k < |os| && IsFirst(os, k) ::
          os[k].off in b.segments && b.segments[os[k].off] == os[k].data)
    && (forall off | off in b.segments :: StoredBy(os, off))
    && b.total == FirstsTotal(os)
  }

  ghost predicate StoredBy(os: seq<Offer>, off: nat) {
    exists k :: 0 <= k < |os| && IsFirst(os, k) && os[k].off == off
  }

  /** Within the budget the buffer holds the first offer at every offset and nothing else. */
  lemma {:induction false} FirstsStored(os: seq<Offer>)
    requires FirstsTotal(os) <= MAX_CRYPTO_BYTES
    ensures StoresFirsts(AddAll(EMPTY, os), os)
  {
    if os != [] {
      var front, last := os[..|os| - 1], os[|os| - 1];
      FirstsStored(front);
      AddLast(front, last);
      assert os == front + [last];
      FirstsGrow(AddAll(EMPTY, front), os);
    }
  }

  lemma AddLast(front: seq<Offer>, last: Offer)
    ensures AddAll(EMPTY, front + [last]) == Add(AddAll(EMPTY, front), last)
  {
    hide Add;
    AddAllConcat(EMPTY, front, [last]);
    assert [last][1..] == [];
    assert AddAll(AddAll(EMPTY, front), [last]) == AddAll(Add(AddAll(EMPTY, front), last), []);
  }

  lemma FrontFirst(os: seq<Offer>, k: nat)
    requires k < |os| - 1
    ensures IsFirst(os[..|os| - 1], k) <==> IsFirst(os, k)
  {
    var front := os[..|os| - 1];
    assert forall j | 0 <= j <= k :: front[j] == os[j];
  }

  /** An offer with data at an offset has a first one there. */
  lemma {:induction false} HasFirst(os: seq<Offer>, j: nat) returns (k: nat)
    requires j < |os| && os[j].data != [] && os[j].off <= MAX_CRYPTO_BYTES
    ensures k <= j && IsFirst(os, k) && os[k].off == os[j].off
    decreases j
  {
    if IsFirst(os, j) {
      k := j;
    } else {
      var i :| 0 <= i < j && os[i].data != [] && os[i].off == os[j].off;
      k := HasFirst(os, i);
    }
  }

  lemma FirstOrStored(b: Buffer, os: seq<Offer>)
    requires os != [] && StoresFirsts(b, os[..|os| - 1])
    requires os[|os| - 1].data != [] && os[|os| - 1].off <= MAX_CRYPTO_BYTES
    ensures IsFirst(os, |os| - 1) <==> os[|os| - 1].off !in b.segments
  {
    var front, last := os[..|os| - 1], os[|os| - 1];
    if !IsFirst(os, |os| - 1) {
      var j :| 0 <= j < |os| - 1 && os[j].data != [] && os[j].off == last.off;
      assert front[j] == os[j];
      var k := HasFirst(front, j);
    }
  }

  lemma FirstsGrow(b: Buffer, os: seq<Offer>)
    requires os != [] && StoresFirsts(b, os[..|os| - 1]) && FirstsTotal(os) <= MAX_CRYPTO_BYTES
    ensures StoresFirsts(Add(b, os[|os| - 1]), os)
  {
    hide IsFirst;
    var last := os[|os| - 1];
    AddedFirst(b, os);
    hide Add, FirstsTotal;
    var after := Add(b, last);
    forall k | 0 <= k < |os| && IsFirst(os, k)
      ensures os[k].off in after.segments && after.segments[os[k].off] == os[k].data
    {
      if k < |os| - 1 {
        FrontFirst(os, k);
        if IsFirst(os, |os| - 1) {
          FirstsApart(os, k);
        }
        assert os[..|os| - 1][k] == os[k];
      }
    }
    forall off | off in after.segments
      ensures StoredBy(os, off)
    {
      if off in b.segments {
        StoredStill(os, off);
      }
    }
  }

  /** The last offer is stored exactly if it is the first at its offset. */
  lemma AddedFirst(b: Buffer, os: seq<Offer>)
    requires os != [] && StoresFirsts(b, os[..|os| - 1]) && FirstsTotal(os) <= MAX_CRYPTO_BYTES
    ensures var last := os[|os| - 1];
      Add(b, last) == if IsFirst(os, |os| - 1)
            then Buffer(b.segments[last.off := last.data], b.total + |last.data|) else b
    ensures Add(b, os[|os| - 1]).total == FirstsTotal(os)
  {
    var last := os[|os| - 1];
    if last.data != [] && last.off <= MAX_CRYPTO_BYTES {
      FirstOrStored(b, os);
    }
    assert IsFirst(os, |os| - 1) ==> last.data != [] && last.off <= MAX_CRYPTO_BYTES;
    hide IsFirst;
  }

  lemma FirstsApart(os: seq<Offer>, k: nat)
    requires k < |os| - 1 && IsFirst(os, k) && IsFirst(os, |os| - 1)
    ensures os[k].off != os[|os| - 1].off
  {
  }

  lemma StoredStill(os: seq<Offer>, off: nat)
    requires os != [] && StoredBy(os[..|os| - 1], off)
    ensures StoredBy(os, off)
  {
    var front := os[..|os| - 1];
    var k :| 0 <= k < |front| && IsFirst(front, k) && front[k].off == off;
    FrontFirst(os, k);
    assert os[k] == front[k];
  }

  // ---------- Chains ----------

  /** Stored slices, the first at `pos` and each where the one before it ends. */
  predicate IsChain(os: seq<Offer>, chain: seq<nat>, pos: nat)
    decreases |chain|
  {
    chain == [] ||
    (chain[0] < |os| && IsFirst(os, chain[0]) && os[chain[0]].off == pos
     && IsChain(os, chain[1..], pos + |os[chain[0]].data|))
  }

  function ChainEnd(os: seq<Offer>, chain: seq<nat>, pos: nat): nat
    requires IsChain(os, chain, pos)
    decreases |chain|
  {
    if chain == [] then pos else ChainEnd(os, chain[1..], pos + |os[chain[0]].data|)
  }

  lemma {:induction false} ChainAssembled(b: Buffer, os: seq<Offer>, chain: seq<nat>, pos: nat)
    requires StoresFirsts(b, os) && NoEmpty(b.segments) && IsChain(os, chain, pos)
    ensures ChainEnd(os, chain, pos) <= pos + |Contiguous(b.segments, pos)|
    decreases |chain|
  {
    hide IsFirst;
    if chain != [] {
      ChainAssembled(b, os, chain[1..], pos + |os[chain[0]].data|);
    }
  }

  lemma {:induction false} AssembledChain(b: Buffer, os: seq<Offer>, pos: nat) returns (chain: seq<nat>)
    requires StoresFirsts(b, os) && NoEmpty(b.segments)
    ensures IsChain(os, chain, pos) && ChainEnd(os, chain, pos) == pos + |Contiguous(b.segments, pos)|
    decreases |Ahead(b.segments, pos)|
  {
    hide IsFirst;
    chain := [];
    if pos in b.segments {
      assert StoredBy(os, pos);
      var k: nat :| k < |os| && IsFirst(os, k) && os[k].off == pos;
      var next := pos + |b.segments[pos]|;
      AheadShrinks(b.segments, pos, next);
      var rest := AssembledChain(b, os, next);
      chain := [k] + rest;
      assert chain[1..] == rest;
    }
  }

  ghost predicate ChainReaches(os: seq<Offer>, n: nat) {
    exists chain :: IsChain(os, chain, 0) && ChainEnd(os, chain, 0) >= n
  }

  /** For all slices of one stream within the budget, in any order: what is assembled is the
      stream up to some byte, and it reaches byte `n` if and only if a chain of slices from
      offset 0 does, each the first at its offset and each starting where the one before ends. */
  lemma AssemblyReachesIff(os: seq<Offer>, stream: bytes, n: nat)
    requires forall i | 0 <= i < |os| :: SliceOf(stream, os[i])
    requires FirstsTotal(os) <= MAX_CRYPTO_BYTES
    ensures NoEmpty(AddAll(EMPTY, os).segments)
    ensures var got := Contiguous(AddAll(EMPTY, os).segments, 0);
      && got <= stream
      && (|got| >= n <==> ChainReaches(os, n))
  {
    hide AddAll, IsFirst, StoresFirsts;
    var b := AddAll(EMPTY, os);
    AssembledIsPrefix(os, stream);
    FirstsStored(os);
    var chain := AssembledChain(b, os, 0);
    forall other | IsChain(os, other, 0)
      ensures ChainEnd(os, other, 0) <= |Contiguous(b.segments, 0)|
    {
      ChainAssembled(b, os, other, 0);
    }
  }

  /** A longer slice at a stored offset is dropped: ten bytes have arrived, five are assembled. */
  lemma LongerSliceDropped(stream: bytes)
    requires |stream| == 10
    ensures var os := [Offer(0, stream[..5]), Offer(0, stream)];
      && (forall i | 0 <= i < |os| :: SliceOf(stream, os[i]))
      && NoEmpty(AddAll(EMPTY, os).segments)
      && Contiguous(AddAll(EMPTY, os).segments, 0) == stream[..5]
  {
    var os := [Offer(0, stream[..5]), Offer(0, stream)];
    var b := Add(EMPTY, os[0]);
    assert os[1..][1..] == [] && Add(b, os[1]) == b;
    assert AddAll(EMPTY, os) == AddAll(b, os[1..]) == AddAll(b, []) == b;
    assert b.segments == map[0 := stream[..5]];
    AheadShrinks(b.segments, 0, 5);
    assert Contiguous(b.segments, 5) == [];
  }
}

/** What each form of line in an address list stands for, and which addresses are the mapped ones. */
module CidrLines {
  import opened Bytes
  import opened Common
  import opened Text
  import opened CidrIndex
  import opened LineText

  // ---------- Lines ----------

  /** The rule of a line: a prefix, alone or behind a rule type and a comma, or a bare address. */
  datatype Form = Plain(text: string) | Typed(kind: string, pad: string, text: string) | Address(text: string)

  predicate Plainly(s: string) {
    ',' !in s && '#' !in s
  }

  predicate Proper(f: Form, net: Netip) {
    match f
    case Plain(text) => IsText(text) && Plainly(text) && '/' in text
    case Typed(kind, pad, text) =>
      && IsText(kind) && '#' !in kind && AllSpace(pad)
      && IsText(text) && Plainly(text) && '/' in text
    case Address(text) => IsText(text) && Plainly(text) && '/' !in text
  }

  function Body(f: Form): string {
    match f
    case Plain(text) => text
    case Typed(kind, pad, text) => kind + "," + pad + text
    case Address(text) => text
  }

  /** What a line stands for: the prefix its text is parsed as, or that of one address only. Without a
      prefix behind the comma the line is taken as a whole. */
  function Meaning(f: Form, net: Netip): Option<Prefix> {
    match f
    case Plain(text) => net.parsePrefix(text)
    case Typed(_, _, text) =>
      if net.parsePrefix(text).Some? then net.parsePrefix(text) else net.parsePrefix(Body(f))
    case Address(text) =>
      match net.parseAddr(text)
      case None => None
      case Some(V4(n)) => net.parsePrefix(net.text(V4(n)) + "/32")
      case Some(V6(n, zone)) => net.parsePrefix(net.text(V6(n, zone)) + "/128")
  }

  lemma {:induction false} NoComma(s: string)
    requires ',' !in s
    ensures AfterLastComma(s) == None
  {
    if s != "" {
      assert forall c | c in s[1..] :: c in s;
      NoComma(s[1..]);
    }
  }

  lemma {:induction false} LastComma(kind: string, rest: string)
    requires ',' !in rest
    ensures AfterLastComma(kind + "," + rest) == Some(rest)
  {
    var s := kind + "," + rest;
    NoComma(rest);
    if kind == "" {
      assert s[1..] == rest;
    } else {
      LastComma(kind[1..], rest);
      assert s[1..] == kind[1..] + "," + rest;
    }
  }

  lemma WidthWritten()
    ensures Decimal(Width(true)) == "32" && Decimal(Width(false)) == "128"
  {
    assert Decimal(3) == "3" && Decimal(1) == "1";
    assert Decimal(12) == Decimal(1) + [Digit(2)];
  }

  lemma {:induction false} FormText(f: Form, net: Netip)
    requires Proper(f, net)
    ensures IsText(Body(f))
    ensures DropRuleType(net, Body(f))
         == if f.Typed? && net.parsePrefix(f.text).None? then Body(f) else f.text
  {
    match f {
      case Plain(text) => NoComma(text);
      case Address(text) => NoComma(text);
      case Typed(kind, pad, text) =>
        TypedText(kind, pad, text);
        assert kind + "," + pad + text == kind + "," + (pad + text);
        LastComma(kind, pad + text);
        assert pad + text == pad + text + "";
        hide TrimSpace, AfterLastComma;
        TrimSpaceMeaning(pad, text, "");
    }
  }

  lemma SlashBehind(kind: string, pad: string, text: string)
    requires '/' in text
    ensures '/' in kind + "," + pad + text
  {
  }

  lemma TypedText(kind: string, pad: string, text: string)
    requires IsText(kind) && AllSpace(pad) && IsText(text) && Plainly(text)
    ensures IsText(kind + "," + pad + text) && ',' !in pad + text
  {
    var s := kind + "," + pad + text;
    assert s[0] == kind[0] && s[|s| - 1] == text[|text| - 1];
    NoHash(pad);
    SecondOfSum(kind, pad, text);
    if HasPrefix(s, "//") {
      SecondSlash(s);
    }
  }

  lemma SecondSlash(s: string)
    requires HasPrefix(s, "//")
    ensures s[1] == '/'
  {
    assert s[..2][1] == '/';
  }

  lemma SecondOfSum(kind: string, pad: string, text: string)
    requires kind != "" && text != ""
    ensures |kind| == 1 ==> (kind + "," + pad + text)[1] == ','
    ensures |kind| >= 2 ==> (kind + "," + pad + text)[..2] == kind[..2]
  {
  }

  /** Whatever stands around it, a line is read as its form means, with the bits past the prefix
      length cleared. */
  lemma {:induction false} LineMeaning(net: Netip, left: string, f: Form, right: string, comment: string)
    requires Proper(f, net) && Around(left, right, comment)
    ensures ParsePrefixLine(net, left + Body(f) + right + comment) == match Meaning(f, net)
      case None => None
      case Some(p) => Some(Masked(p))
  {
    FormText(f, net);
    if f.Typed? {
      SlashBehind(f.kind, f.pad, f.text);
    }
    TextOfLine(left, Body(f), right, comment);
    hide TrimSpace, Before, HasPrefix, DropRuleType, Decimal, Masked, Around, IsText, Body;
    if f.Address? {
      var a := net.parseAddr(f.text);
      if a.Some? {
        OneAddress(net, a.value);
      }
    }
  }

  lemma OneAddress(net: Netip, a: Addr)
    ensures net.text(a) + "/" + Decimal(Width(a.V4?)) == match a
      case V4(n) => net.text(V4(n)) + "/32"
      case V6(n, zone) => net.text(V6(n, zone)) + "/128"
  {
    WidthWritten();
    hide Decimal, Width;
    assert net.text(a) + "/" + "32" == net.text(a) + "/32";
    assert net.text(a) + "/" + "128" == net.text(a) + "/128";
  }

  /** A comment line and a blank one stand for nothing. */
  lemma {:induction false} NoRuleInLine(net: Netip, left: string, hash: bool, text: string, right: string,
                                        comment: string)
    requires Around(left, right, comment)
    ensures ParsePrefixLine(net, left + Mark(hash) + text) == None
    ensures ParsePrefixLine(net, left + "" + right + comment) == None
  {
    RemarkOfLine(left, hash, text);
    BlankOfLine(left, right, comment);
    hide TrimSpace, Before, HasPrefix, DropRuleType, Decimal;
  }

  // ---------- Files ----------

  function ParsedPrefixes(net: Netip, raws: seq<string>): seq<Prefix> {
    if raws == [] then []
    else
      ParsedPrefixes(net, raws[..|raws| - 1]) +
      match ParsePrefixLine(net, raws[|raws| - 1]) case Some(p) => [p] case None => []
  }

  /** `parseCIDRs`, given the lines of the file: the set holds what the lines stand for and is
      ready to be searched. */
  method ParseCIDRs(net: Netip, raws: seq<string>) returns (cs: CIDRSet)
    ensures fresh(cs) && cs.Finalized() && cs.added == ParsedPrefixes(net, raws)
  {
    hide ParsePrefixLine, CIDRSet.Valid;
    cs := new CIDRSet();
    for n := 0 to |raws|
      invariant fresh(cs) && cs.Valid() && cs.added == ParsedPrefixes(net, raws[..n])
    {
      cs.AddRule(net, raws[n]);
      assert raws[..n + 1][..n] == raws[..n];
    }
    assert raws[..|raws|] == raws;
    cs.Finalize();
  }

  // ---------- Mapped and zoned addresses ----------

  /** Some prefix of the family that agrees with the address in its first bits. */
  predicate SomeHolds(added: seq<Prefix>, v4: bool, n: nat) {
    exists i | 0 <= i < |added| :: added[i].v4 == v4 && n / Size(added[i]) == added[i].addr / Size(added[i])
  }

  /** The naive answer, address by address: one with a zone is in no prefix. */
  lemma {:induction false} MatchMeaning(added: seq<Prefix>, n: nat, zone: string)
    ensures NaiveMatch(added, Some(V4(n))) <==> SomeHolds(added, true, n)
    ensures Unmap(V6(n, zone)).V6? ==>
      (NaiveMatch(added, Some(V6(n, zone))) <==> zone == "" && SomeHolds(added, false, n))
    ensures !NaiveMatch(added, None)
  {
    hide Size;
  }

  lemma {:induction false} FromBeConcat(p: bytes, q: bytes)
    ensures FromBe(p + q) == FromBe(p) * Pow256(|q|) + FromBe(q)
  {
    if q == [] {
      assert p + q == p;
    } else {
      var n := |q| - 1;
      FromBeConcat(p, q[..n]);
      assert (p + q)[..|p + q| - 1] == p + q[..n];
      assert Pow256(|q|) == 256 * Pow256(n);
      Shifted(FromBe(p), Pow256(n));
    }
  }

  lemma Shifted(a: nat, b: nat)
    ensures a * b * 256 == a * (256 * b)
  {
  }

  lemma {:induction false} FromBeBound(b: bytes)
    ensures FromBe(b) < Pow256(|b|)
  {
    if b != [] {
      FromBeBound(b[..|b| - 1]);
    }
  }

  const MAPPED: bytes := [0, 0, 0, 0, 0, 0, 0, 0, 0, 0, 255, 255]

  lemma MappedNumber()
    ensures FromBe(MAPPED) == 0xFFFF && Pow256(4) == 0x1_0000_0000
  {
    assert Pow256(2) == 65536;
    var zeros: bytes := [0, 0, 0, 0, 0, 0, 0, 0, 0, 0];
    assert MAPPED == zeros + [255, 255];
    FromBeConcat(zeros, [255, 255]);
    ZerosAreZero(zeros);
    assert FromBe([255, 255]) == 65535 by {
      assert [255, 255][..1] == [255] && [255][..0] == [];
    }
  }

  lemma {:induction false} ZerosAreZero(b: bytes)
    requires forall i | 0 <= i < |b| :: b[i] == 0
    ensures FromBe(b) == 0
  {
    if b != [] {
      ZerosAreZero(b[..|b| - 1]);
    }
  }

  /** Of the sixteen-byte addresses exactly those in ::ffff:0:0/96 are unmapped, to the four bytes
      they end in. */
  lemma {:induction false} UnmapMeaning(b: bytes, zone: string)
    requires |b| == 16
    ensures Unmap(V6(FromBe(b), zone))
         == if b[..12] == MAPPED then V4(FromBe(b[12..])) else V6(FromBe(b), zone)
  {
    assert b == b[..12] + b[12..];
    FromBeConcat(b[..12], b[12..]);
    FromBeBound(b[12..]);
    MappedNumber();
    BeOfFromBe(b[..12]);
    BeOfFromBe(MAPPED);
    hide FromBe, Be, Pow256, MAPPED;
    MappedRange(FromBe(b[..12]), FromBe(b[12..]));
  }

  lemma MappedRange(hi: nat, lo: nat)
    requires lo < 0x1_0000_0000
    ensures 0xFFFF_0000_0000 <= hi * 0x1_0000_0000 + lo <= 0xFFFF_FFFF_FFFF <==> hi == 0xFFFF
  {
  }
}

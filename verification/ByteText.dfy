/** What the byte-wise text operations of the two sniffers mean, and with them the Host header line. */
module ByteText {
  import opened Bytes
  import opened Common
  import Text
  import CH = ClientHello
  import H = HttpHost

  // ---------- Letters, hosts, spaces ----------

  const DIGITS: string := "0123456789"

  function ByteOf(c: char): byte
    requires c < 128 as char
  {
    c as int
  }

  lemma {:induction false} LettersAreBytes(i: nat)
    requires i < 26
    ensures Text.CAPITAL[i] < 128 as char && Text.SMALL[i] < 128 as char
    ensures Text.CAPITAL[i] as int == 'A' as int + i && Text.SMALL[i] as int == 'a' as int + i
  {
    Text.SmallAt(i);
    Text.CapitalAt(i);
  }

  /** The capital letters become the small ones, one by one, and no other byte changes. */
  lemma {:induction false} LowerMeaning(c: byte, i: nat)
    requires i < 26
    ensures Text.CAPITAL[i] < 128 as char && Text.SMALL[i] < 128 as char
    ensures CH.LowerByte(ByteOf(Text.CAPITAL[i])) == ByteOf(Text.SMALL[i])
    ensures (forall j | 0 <= j < 26 :: Text.CAPITAL[j] as int != c) ==> CH.LowerByte(c) == c
  {
    LettersAreBytes(i);
    if 'A' as int <= c <= 'Z' as int {
      LettersAreBytes(c - 'A' as int);
    }
  }

  predicate HostLike(c: byte) {
    || (exists i | 0 <= i < 26 :: Text.SMALL[i] as int == c || Text.CAPITAL[i] as int == c)
    || (exists i | 0 <= i < 10 :: DIGITS[i] as int == c)
    || c == '.' as int || c == '-' as int || c == '_' as int
  }

  /** A host may contain letters, digits, dots, hyphens and underscores, and nothing else. */
  lemma {:induction false} HostByteMeaning(c: byte)
    ensures CH.HostByte(c) <==> HostLike(c)
  {
    forall i | 0 <= i < 26
      ensures Text.CAPITAL[i] as int == 'A' as int + i && Text.SMALL[i] as int == 'a' as int + i
    {
      LettersAreBytes(i);
    }
    assert forall i | 0 <= i < 10 :: DIGITS[i] as int == '0' as int + i;
    if 'a' as int <= c <= 'z' as int {
      assert Text.SMALL[c - 'a' as int] as int == c;
    } else if 'A' as int <= c <= 'Z' as int {
      assert Text.CAPITAL[c - 'A' as int] as int == c;
    } else if '0' as int <= c <= '9' as int {
      assert DIGITS[c - '0' as int] as int == c;
    }
  }

  /** A host name has 1 to 253 of these. */
  lemma {:induction false} HostMeaning(name: bytes)
    ensures CH.ValidHost(name) <==>
      |name| != 0 && |name| < 254 && forall i | 0 <= i < |name| :: HostLike(name[i])
  {
    forall i | 0 <= i < |name|
      ensures CH.HostByte(name[i]) <==> HostLike(name[i])
    {
      HostByteMeaning(name[i]);
    }
    hide CH.HostByte, HostLike;
  }

  predicate AllSpace(b: bytes) {
    forall i | 0 <= i < |b| :: b[i] in {9, 10, 11, 12, 13, 32}
  }

  /** Neither the first nor the last byte is a space. */
  predicate Tight(b: bytes) {
    b != [] ==> b[0] !in {9, 10, 11, 12, 13, 32} && b[|b| - 1] !in {9, 10, 11, 12, 13, 32}
  }

  lemma {:induction false} TrimMeaning(left: bytes, b: bytes, right: bytes)
    requires AllSpace(left) && Tight(b) && AllSpace(right)
    ensures CH.Trim(left + b + right) == b
  {
    if b == [] {
      AllTrimmed(left + b + right);
    } else {
      assert left + b + right == left + (b + right);
      LeftTrimmed(left, b + right);
      RightTrimmed(b, right);
    }
  }

  lemma {:induction false} AllTrimmed(b: bytes)
    requires AllSpace(b)
    ensures CH.TrimLeft(b) == []
  {
    if b != [] {
      AllTrimmed(b[1..]);
    }
  }

  lemma {:induction false} LeftTrimmed(left: bytes, b: bytes)
    requires AllSpace(left) && b != [] && !CH.SpaceByte(b[0])
    ensures CH.TrimLeft(left + b) == b
  {
    if left == [] {
      assert left + b == b;
    } else {
      assert (left + b)[1..] == left[1..] + b;
      LeftTrimmed(left[1..], b);
    }
  }

  lemma {:induction false} RightTrimmed(b: bytes, right: bytes)
    requires AllSpace(right) && b != [] && !CH.SpaceByte(b[|b| - 1])
    ensures CH.TrimRight(b + right) == b
  {
    if right == [] {
      assert b + right == b;
    } else {
      assert (b + right)[..|b + right| - 1] == b + right[..|right| - 1];
      RightTrimmed(b, right[..|right| - 1]);
    }
  }

  // ---------- The Host line ----------

  /** The five bytes spell `Host:`, each letter small or capital. */
  predicate SpellsHost(b: bytes) {
    && |b| == 5
    && (b[0] == 'h' as int || b[0] == 'H' as int) && (b[1] == 'o' as int || b[1] == 'O' as int)
    && (b[2] == 's' as int || b[2] == 'S' as int) && (b[3] == 't' as int || b[3] == 'T' as int)
    && b[4] == ':' as int
  }

  lemma {:induction false} LowerSpells(b: bytes)
    requires |b| == 5
    ensures CH.Lower(b) == H.HOST_PREFIX <==> SpellsHost(b)
  {
    forall i | 0 <= i < 5
      ensures CH.Lower(b)[i] == CH.LowerByte(b[i])
    {
    }
  }

  /** A line gives its value exactly if it starts with `Host:` in any case: the value without the
      spaces around it, in small letters. Every other line gives nothing. */
  lemma {:induction false} HostLineMeaning(name: bytes, left: bytes, value: bytes, right: bytes)
    requires |name| == 5 && AllSpace(left) && Tight(value) && AllSpace(right)
    ensures H.HostValue(name + left + value + right) == if SpellsHost(name) then CH.Lower(value) else []
  {
    LowerSpells(name);
    TrimMeaning(left, value, right);
    var line := name + left + value + right;
    hide CH.Lower, CH.Trim, SpellsHost;
    assert line[..5] == name && line[5..] == left + value + right;
    assert |line| == 5 ==> value == [];
    NothingLower(value);
  }

  lemma NothingLower(b: bytes)
    ensures b == [] ==> CH.Lower(b) == []
    ensures b != [] ==> CH.Lower(b) != []
  {
  }

  lemma ShortLineMeaning(line: bytes)
    requires |line| < 5
    ensures H.HostValue(line) == []
  {
  }

  /** The host of a request is the value of its first Host line that has one. */
  lemma {:induction false} FirstHostMeaning(lines: seq<bytes>, k: nat, name: bytes, left: bytes, value: bytes,
                                            right: bytes)
    requires k < |lines| && forall i | 0 <= i < k :: H.HostValue(lines[i]) == []
    requires SpellsHost(name) && AllSpace(left) && Tight(value) && AllSpace(right) && value != []
    requires lines[k] == name + left + value + right
    ensures H.FirstHost(lines) == Some(CH.Lower(value))
  {
    if k > 0 {
      FirstHostMeaning(lines[1..], k - 1, name, left, value, right);
      assert H.HostValue(lines[0]) == [];
    } else {
      HostLineMeaning(name, left, value, right);
      NothingLower(value);
      hide H.HostValue, CH.Lower;
    }
  }
}

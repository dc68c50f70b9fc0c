/** The string operations the rule code uses, on ASCII text. */
module Text {
  import opened Common

  predicate IsSpace(c: char) {
    c == ' ' || c == '\t' || c == '\n' || c == '\r' || c == '\U{0B}' || c == '\U{0C}'
  }

  function TrimLeft(s: string): string {
    if s != "" && IsSpace(s[0]) then TrimLeft(s[1..]) else s
  }

  function TrimRight(s: string): string {
    if s != "" && IsSpace(s[|s| - 1]) then TrimRight(s[..|s| - 1]) else s
  }

  function TrimSpace(s: string): string {
    TrimRight(TrimLeft(s))
  }

  function LowerChar(c: char): char {
    if 'A' <= c <= 'Z' then c + ' ' else c
  }

  function ToLower(s: string): (r: string)
    ensures |r| == |s|
  {
    seq(|s|, i requires 0 <= i < |s| => LowerChar(s[i]))
  }

  function UpperChar(c: char): char {
    if 'a' <= c <= 'z' then c - ' ' else c
  }

  function ToUpper(s: string): (r: string)
    ensures |r| == |s|
  {
    seq(|s|, i requires 0 <= i < |s| => UpperChar(s[i]))
  }

  const SMALL: string := "abcdefghijklmnopqrstuvwxyz"
  const CAPITAL: string := "ABCDEFGHIJKLMNOPQRSTUVWXYZ"

  /** The two alphabets map to each other, letter by letter, and nothing else changes. */
  lemma CaseMeaning(c: char, i: nat)
    requires i < 26
    ensures LowerChar(CAPITAL[i]) == SMALL[i] && UpperChar(SMALL[i]) == CAPITAL[i]
    ensures c !in CAPITAL ==> LowerChar(c) == c
    ensures c !in SMALL ==> UpperChar(c) == c
  {
    SmallAt(i);
    CapitalAt(i);
    if 'A' <= c <= 'Z' {
      CapitalAt((c - 'A') as int);
    }
    if 'a' <= c <= 'z' {
      SmallAt((c - 'a') as int);
    }
  }

  lemma SmallAt(i: nat)
    requires i < 26
    ensures SMALL[i] == 'a' + i as char
  {
  }

  lemma CapitalAt(i: nat)
    requires i < 26
    ensures CAPITAL[i] == 'A' + i as char
  {
  }

  predicate HasPrefix(s: string, p: string) {
    |p| <= |s| && s[..|p|] == p
  }

  predicate HasSuffix(s: string, p: string) {
    |p| <= |s| && s[|s| - |p|..] == p
  }

  function TrimPrefix(s: string, p: string): string {
    if HasPrefix(s, p) then s[|p|..] else s
  }

  function TrimSuffix(s: string, p: string): string {
    if HasSuffix(s, p) then s[..|s| - |p|] else s
  }

  predicate OccursAt(s: string, sub: string, i: nat) {
    i + |sub| <= |s| && s[i..i + |sub|] == sub
  }

  predicate Contains(s: string, sub: string) {
    exists i: nat | i <= |s| :: OccursAt(s, sub, i)
  }

  /** What precedes the first `c`, or the whole string. */
  function Before(s: string, c: char): (r: string)
    ensures c !in r && r <= s
    ensures |r| < |s| ==> s[|r|] == c
    ensures c !in s ==> r == s
  {
    if s == "" || s[0] == c then "" else [s[0]] + Before(s[1..], c)
  }

  /** Splitting at every `sep`. */
  function Split(s: string, sep: char): (r: seq<string>)
    ensures r != []
    ensures forall i | 0 <= i < |r| :: sep !in r[i]
    decreases |s|
  {
    var first := Before(s, sep);
    if |first| == |s| then [s] else [first] + Split(s[|first| + 1..], sep)
  }

  lemma SplitCons(field: string, sep: char, rest: string)
    requires sep !in field
    ensures Split(field + [sep] + rest, sep) == [field] + Split(rest, sep)
  {
    var s := field + [sep] + rest;
    BeforeField(field, sep, rest);
    assert s[|field| + 1..] == rest;
  }

  lemma {:induction false} BeforeField(field: string, sep: char, rest: string)
    requires sep !in field
    ensures Before(field + [sep] + rest, sep) == field
  {
    var s := field + [sep] + rest;
    if field != "" {
      assert s[1..] == field[1..] + [sep] + rest;
      BeforeField(field[1..], sep, rest);
    }
  }

  lemma SplitSingle(field: string, sep: char)
    requires sep !in field
    ensures Split(field, sep) == [field]
  {
  }

  /** Text that neither starts nor ends with a space is not trimmed. */
  lemma TrimNothing(s: string)
    requires s != "" ==> !IsSpace(s[0]) && !IsSpace(s[|s| - 1])
    ensures TrimSpace(s) == s
  {
  }

  predicate AllSpace(s: string) {
    forall i | 0 <= i < |s| :: IsSpace(s[i])
  }

  /** The text has no space at either end. */
  predicate Tight(s: string) {
    s != "" ==> !IsSpace(s[0]) && !IsSpace(s[|s| - 1])
  }

  /** Trimming takes away the spaces around a text and nothing of the text. */
  lemma {:induction false} TrimSpaceMeaning(left: string, s: string, right: string)
    requires AllSpace(left) && Tight(s) && AllSpace(right)
    ensures TrimSpace(left + s + right) == s
  {
    if s == "" {
      assert AllSpace(left + s + right);
      AllTrimmed(left + s + right);
    } else {
      assert left + s + right == left + (s + right);
      LeftTrimmed(left, s + right);
      RightTrimmed(s, right);
    }
  }

  /** What trimming takes away at the end is space. */
  lemma {:induction false} TrimRightPad(s: string) returns (pad: string)
    ensures AllSpace(pad) && TrimRight(s) + pad == s
    ensures TrimRight(s) != "" ==> !IsSpace(TrimRight(s)[|TrimRight(s)| - 1])
  {
    if s != "" && IsSpace(s[|s| - 1]) {
      var rest := TrimRightPad(s[..|s| - 1]);
      pad := rest + [s[|s| - 1]];
      assert s == s[..|s| - 1] + [s[|s| - 1]];
    } else {
      pad := "";
    }
  }

  lemma {:induction false} AllTrimmed(s: string)
    requires AllSpace(s)
    ensures TrimLeft(s) == ""
  {
    if s != "" {
      AllTrimmed(s[1..]);
    }
  }

  lemma {:induction false} LeftTrimmed(left: string, s: string)
    requires AllSpace(left) && s != "" && !IsSpace(s[0])
    ensures TrimLeft(left + s) == s
  {
    if left == "" {
      assert left + s == s;
    } else {
      assert (left + s)[1..] == left[1..] + s;
      LeftTrimmed(left[1..], s);
    }
  }

  lemma {:induction false} RightTrimmed(s: string, right: string)
    requires AllSpace(right) && s != "" && !IsSpace(s[|s| - 1])
    ensures TrimRight(s + right) == s
  {
    if right == "" {
      assert s + right == s;
    } else {
      assert (s + right)[..|s + right| - 1] == s + right[..|right| - 1];
      RightTrimmed(s, right[..|right| - 1]);
    }
  }

  // ---------- Numbers ----------

  /** `itoa`. */
  function Decimal(n: nat): string {
    if n < 10 then [Digit(n)] else Decimal(n / 10) + [Digit(n % 10)]
  }

  function Digit(d: nat): char
    requires d < 10
  {
    '0' + d as char
  }

  // ---------- Order ----------

  /** Byte-wise order of strings. */
  predicate Less(a: string, b: string) {
    b != "" && (a == "" || a[0] < b[0] || (a[0] == b[0] && Less(a[1..], b[1..])))
  }

  /** The strings agree up to `i`, where `a` ends or has the smaller character. */
  predicate FallsBehind(a: string, b: string, i: nat) {
    i <= |a| && i < |b| && a[..i] == b[..i] && (i == |a| || a[i] < b[i])
  }

  lemma {:induction false} SplitsAtOnce(a: string, b: string)
    requires a == "" || b == "" || a[0] != b[0]
    ensures forall i: nat | FallsBehind(a, b, i) :: i == 0
  {
    forall i: nat | FallsBehind(a, b, i)
      ensures i == 0
    {
      if a != "" && b != "" && i > 0 {
        SameHead(a, b, i);
      }
    }
  }

  lemma {:induction false} SameHead(a: string, b: string, i: nat)
    requires 0 < i <= |a| && i <= |b| && a[..i] == b[..i]
    ensures a[0] == b[0]
  {
    assert a[..i][0] == b[..i][0];
  }

  lemma {:induction false} LessMeaning(a: string, b: string)
    ensures Less(a, b) <==> exists i: nat :: FallsBehind(a, b, i)
  {
    if a == "" || b == "" || a[0] != b[0] {
      assert Less(a, b) ==> FallsBehind(a, b, 0);
      SplitsAtOnce(a, b);
    } else {
      LessMeaning(a[1..], b[1..]);
      forall i: nat | FallsBehind(a[1..], b[1..], i)
        ensures FallsBehind(a, b, i + 1)
      {
        assert a[..i + 1] == [a[0]] + a[1..][..i] && b[..i + 1] == [b[0]] + b[1..][..i];
      }
      forall i: nat | FallsBehind(a, b, i)
        ensures i > 0 && FallsBehind(a[1..], b[1..], i - 1)
      {
        assert a[1..][..i - 1] == a[..i][1..] && b[1..][..i - 1] == b[..i][1..];
      }
    }
  }

  lemma {:induction false} LessIrreflexive(a: string)
    ensures !Less(a, a)
  {
    if a != "" {
      LessIrreflexive(a[1..]);
    }
  }

  lemma {:induction false} LessTransitive(a: string, b: string, c: string)
    requires Less(a, b) && Less(b, c)
    ensures Less(a, c)
  {
    if a != "" && a[0] == b[0] && b[0] == c[0] {
      LessTransitive(a[1..], b[1..], c[1..]);
    }
  }

  lemma {:induction false} LessTotal(a: string, b: string)
    ensures a == b || Less(a, b) || Less(b, a)
  {
    if a != "" && b != "" && a[0] == b[0] {
      LessTotal(a[1..], b[1..]);
      assert a == [a[0]] + a[1..] && b == [b[0]] + b[1..];
    }
  }
}

/** Which of two release tags is the newer, said of the numbers they spell out. */
module ReleaseTags {
  import opened Text
  import opened Versions

  /** One to three numbers in decimal, dotted. */
  function Dotted(n: seq<nat>): string
    requires n != []
  {
    if |n| == 1 then Decimal(n[0]) else Decimal(n[0]) + "." + Dotted(n[1..])
  }

  /** A tag: maybe a `v`, the numbers, and maybe a suffix behind `c`. */
  function Tag(v: bool, n: seq<nat>, c: char, suffix: string): string
    requires n != []
  {
    (if v then "v" else "") + Dotted(n) + if suffix == "" then "" else [c] + suffix
  }

  predicate Writable(n: seq<nat>, c: char, suffix: string) {
    && 1 <= |n| <= 3 && (forall i | 0 <= i < |n| :: n[i] <= MAX_INT)
    && (c == '-' || c == '+') && (suffix != "" ==> !IsSpace(suffix[|suffix| - 1]))
  }

  /** A number left out is 0. */
  function Field(n: seq<nat>, i: nat): nat {
    if i < |n| then n[i] else 0
  }

  /** At the first of the three places where the numbers differ, `a` has the greater one. */
  predicate Greater(a: seq<nat>, b: seq<nat>) {
    exists i | 0 <= i < 3 :: Field(a, i) > Field(b, i) && forall j | 0 <= j < i :: Field(a, j) == Field(b, j)
  }

  predicate Same(a: seq<nat>, b: seq<nat>) {
    forall i | 0 <= i < 3 :: Field(a, i) == Field(b, i)
  }

  // ---------- Numbers ----------

  lemma {:induction false} DecimalRead(n: nat)
    ensures Decimal(n) != "" && AllDigits(Decimal(n)) && Value(Decimal(n)) == n
  {
    if n >= 10 {
      DecimalRead(n / 10);
      assert Decimal(n)[..|Decimal(n)| - 1] == Decimal(n / 10);
    } else {
      assert Decimal(n)[..0] == "";
    }
  }

  lemma {:induction false} DigitsStay(s: string)
    requires s != "" && AllDigits(s)
    ensures TrimNonDigitsLeft(s) == s && TrimNonDigitsRight(s) == s
  {
    assert IsDigit(s[0]) && IsDigit(s[|s| - 1]);
  }

  lemma {:induction false} PartOfDecimal(n: nat)
    requires n <= MAX_INT
    ensures Part(Decimal(n)) == n
  {
    DecimalRead(n);
    hide Decimal, Value;
    DigitsStay(Decimal(n));
  }

  lemma PartOfNothing()
    ensures Part("") == 0 && Before("", '.') == "" && Behind("", '.') == ""
  {
  }

  lemma {:induction false} FirstField(digits: string, rest: string)
    requires AllDigits(digits)
    ensures Before(digits + "." + rest, '.') == digits && Behind(digits + "." + rest, '.') == rest
    ensures Before(digits, '.') == digits && Behind(digits, '.') == ""
  {
    var s := digits + "." + rest;
    if digits == "" {
      assert s[1..] == rest;
    } else {
      assert s[1..] == digits[1..] + "." + rest;
      FirstField(digits[1..], rest);
    }
  }

  /** The field in front of the first dot of the numbers, and what is behind it. */
  lemma {:induction false} HeadField(n: seq<nat>)
    requires n != []
    ensures Before(Dotted(n), '.') == Decimal(n[0])
    ensures Behind(Dotted(n), '.') == if |n| == 1 then "" else Dotted(n[1..])
  {
    DecimalRead(n[0]);
    hide Decimal, Value, AllDigits, Before, Behind;
    FirstField(Decimal(n[0]), if |n| == 1 then "" else Dotted(n[1..]));
  }

  lemma {:induction false} NumbersRead(n: seq<nat>)
    requires 1 <= |n| <= 3 && forall i | 0 <= i < |n| :: n[i] <= MAX_INT
    ensures var rest := Behind(Dotted(n), '.');
      && Part(Before(Dotted(n), '.')) == Field(n, 0)
      && Part(Before(rest, '.')) == Field(n, 1)
      && Part(Behind(rest, '.')) == Field(n, 2)
  {
    hide Decimal, Before, Behind, Part, Dotted;
    PartOfNothing();
    HeadField(n);
    PartOfDecimal(n[0]);
    if |n| > 1 {
      HeadField(n[1..]);
      PartOfDecimal(n[1]);
    }
    if |n| > 2 {
      HeadField(n[1..][1..]);
      PartOfDecimal(n[2]);
      LastDotted(n[2..]);
      assert n[1..][1..] == n[2..];
    }
  }

  lemma LastDotted(n: seq<nat>)
    requires |n| == 1
    ensures Dotted(n) == Decimal(n[0])
  {
    hide Decimal;
  }

  // ---------- The whole tag ----------

  predicate NumberChars(s: string) {
    forall i | 0 <= i < |s| :: IsDigit(s[i]) || s[i] == '.'
  }

  lemma {:induction false} DottedChars(n: seq<nat>)
    requires n != []
    ensures NumberChars(Dotted(n)) && Dotted(n) != ""
    ensures IsDigit(Dotted(n)[0]) && IsDigit(Dotted(n)[|Dotted(n)| - 1])
  {
    DecimalRead(n[0]);
    if |n| > 1 {
      DottedChars(n[1..]);
    }
    hide Decimal, Value;
  }

  lemma TagNotTrimmed(v: bool, n: seq<nat>, c: char, suffix: string)
    requires Writable(n, c, suffix)
    ensures TrimSpace(Tag(v, n, c, suffix)) == Tag(v, n, c, suffix)
    ensures TrimPrefix(Tag(v, n, c, suffix), "v") == Tag(false, n, c, suffix)
  {
    DottedChars(n);
    hide Dotted, NumberChars, TrimSpace;
    var tag := Tag(v, n, c, suffix);
    assert tag[0] == if v then 'v' else Dotted(n)[0];
    if v {
      assert tag == "v" + Tag(false, n, c, suffix);
    }
    TrimNothing(tag);
  }

  lemma {:induction false} TagCut(n: seq<nat>, c: char, suffix: string)
    requires Writable(n, c, suffix)
    ensures CutAtSuffix(Tag(false, n, c, suffix)) == (Dotted(n), suffix)
  {
    DottedChars(n);
    hide Dotted, CutAtSuffix;
    var numbers := Dotted(n);
    assert forall i | 0 <= i < |numbers| :: !IsCut(numbers[i]);
    CutBehind(numbers, c, suffix);
    if suffix == "" {
      assert Tag(false, n, c, suffix) == numbers;
    } else {
      assert Tag(false, n, c, suffix) == numbers + [c] + suffix;
    }
  }

  /** Every tag is read back as its numbers and its suffix. */
  lemma TagRead(v: bool, n: seq<nat>, c: char, suffix: string)
    requires Writable(n, c, suffix)
    ensures ParseVer(Tag(v, n, c, suffix)) == Version(Field(n, 0), Field(n, 1), Field(n, 2), suffix)
  {
    TagNotTrimmed(v, n, c, suffix);
    TagCut(n, c, suffix);
    NumbersRead(n);
    hide Tag, Dotted, Field, Part, Before, Behind, TrimSpace, TrimPrefix, CutAtSuffix;
  }

  lemma {:induction false} GreaterCases(a: seq<nat>, b: seq<nat>)
    ensures Greater(a, b) <==>
      || Field(a, 0) > Field(b, 0)
      || (Field(a, 0) == Field(b, 0) && Field(a, 1) > Field(b, 1))
      || (Field(a, 0) == Field(b, 0) && Field(a, 1) == Field(b, 1) && Field(a, 2) > Field(b, 2))
    ensures Same(a, b) <==>
      Field(a, 0) == Field(b, 0) && Field(a, 1) == Field(b, 1) && Field(a, 2) == Field(b, 2)
  {
    hide Field;
  }

  /** Of any two tags, with or without the `v`, with one, two or three numbers, with or without a
      suffix, the first is newer exactly when its numbers are greater at the first difference; or
      when the numbers are the same and it alone has no suffix, or has the greater suffix. */
  lemma NewerMeaning(va: bool, a: seq<nat>, c: char, s: string, vb: bool, b: seq<nat>, d: char, t: string)
    requires Writable(a, c, s) && Writable(b, d, t)
    ensures Newer(Tag(va, a, c, s), Tag(vb, b, d, t)) <==>
      || Greater(a, b)
      || (Same(a, b) && t != "" && (s == "" || Less(t, s)))
  {
    TagRead(va, a, c, s);
    TagRead(vb, b, d, t);
    GreaterCases(a, b);
    NothingLess(s);
    hide Tag, ParseVer, Field, Greater, Same, Less;
  }

  lemma NothingLess(s: string)
    ensures !Less(s, "")
  {
  }
}

/** Lines of the rule lists: what is left of one without the spaces around it and the comment
    behind it. */
module LineText {
  import opened Text

  /** The text of a rule: without spaces at its ends, without a comment. */
  predicate IsText(body: string) {
    body != "" && Tight(body) && '#' !in body && !HasPrefix(body, "//")
  }

  /** What may stand around a text: spaces, and behind it a comment from `#` on. */
  predicate Around(left: string, right: string, comment: string) {
    AllSpace(left) && AllSpace(right) && (comment != "" ==> comment[0] == '#')
  }

  function Mark(hash: bool): string {
    if hash then "#" else "//"
  }

  lemma {:induction false} CommentTrimmed(left: string, body: string, right: string, comment: string)
    requires AllSpace(left) && body != "" && Tight(body) && AllSpace(right) && '#' !in body
    requires comment != "" && comment[0] == '#'
    ensures var line := TrimSpace(left + body + right + comment);
      line != "" && line[0] == body[0] && '#' in line && Before(line, '#') == body + right
      && (HasPrefix(line, "//") ==> HasPrefix(body, "//"))
  {
    hide TrimSpace, TrimRight, Before, AllSpace, HasPrefix;
    var rest := comment[1..];
    var pad := TrimRightPad(rest);
    var core := body + right + ['#'] + TrimRight(rest);
    TextAndComment(left, body, right, comment, TrimRight(rest), pad);
    TrimSpaceMeaning(left, core, pad);
    NoHash(right);
    BeforeField(body + right, '#', TrimRight(rest));
    if HasPrefix(core, "//") {
      SlashesInFront(body, right, ['#'] + TrimRight(rest));
    }
  }

  lemma TextAndComment(left: string, body: string, right: string, comment: string, rest: string, pad: string)
    requires comment != "" && comment[0] == '#' && comment[1..] == rest + pad && body != ""
    requires rest != "" ==> !IsSpace(rest[|rest| - 1])
    requires Tight(body)
    ensures var core := body + right + ['#'] + rest;
      && left + body + right + comment == left + core + pad
      && core != "" && core[0] == body[0] && '#' in core && Tight(core)
      && core == body + right + (['#'] + rest)
  {
    var core := body + right + ['#'] + rest;
    assert comment == ['#'] + rest + pad;
    assert core[|body + right|] == '#';
    assert core[|core| - 1] == if rest == "" then '#' else rest[|rest| - 1];
  }

  lemma SlashesInFront(body: string, right: string, rest: string)
    requires body != "" && AllSpace(right) && rest != "" && rest[0] == '#'
    requires HasPrefix(body + right + rest, "//")
    ensures HasPrefix(body, "//")
  {
    var all := body + right + rest;
    assert all[0] == '/' && all[1] == '/' by { assert all[..2][0] == '/' && all[..2][1] == '/'; }
    SecondChar(body, right, rest);
    assert |body| > 1;
    assert body[..2] == "//";
  }

  lemma SecondChar(body: string, right: string, rest: string)
    requires rest != ""
    ensures |body| == 1 ==> (body + right + rest)[1] == if right != "" then right[0] else rest[0]
  {
  }

  lemma NoHash(pad: string)
    requires AllSpace(pad)
    ensures '#' !in pad
  {
  }

  /** Spaces around a text and a comment behind it are taken off. */
  lemma {:induction false} TextOfLine(left: string, body: string, right: string, comment: string)
    requires IsText(body) && Around(left, right, comment)
    ensures var line := TrimSpace(left + body + right + comment);
      && line != "" && !HasPrefix(line, "#") && !HasPrefix(line, "//")
      && (if '#' in line then TrimSpace(Before(line, '#')) else line) == body
  {
    hide TrimSpace, Before;
    var raw := left + body + right + comment;
    assert left + body + right + "" == left + body + right;
    TrimSpaceMeaning(left, body, right);
    if comment != "" {
      CommentTrimmed(left, body, right, comment);
      assert "" + body + right == body + right;
      TrimSpaceMeaning("", body, right);
    }
    HashFirst(TrimSpace(raw), body[0]);
  }

  lemma HashFirst(s: string, c: char)
    requires s != "" && s[0] == c && c != '#'
    ensures !HasPrefix(s, "#")
  {
  }

  lemma {:induction false} RemarkOfLine(left: string, hash: bool, rest: string)
    requires AllSpace(left)
    ensures HasPrefix(TrimSpace(left + Mark(hash) + rest), Mark(hash))
  {
    hide TrimSpace, TrimRight, AllSpace;
    var mark := Mark(hash);
    var pad := TrimRightPad(rest);
    var core := mark + TrimRight(rest);
    MarkAndText(left, hash, TrimRight(rest), pad);
    assert left + mark + rest == left + core + pad;
    TrimSpaceMeaning(left, core, pad);
  }

  lemma {:induction false} MarkAndText(left: string, hash: bool, rest: string, pad: string)
    requires rest != "" ==> !IsSpace(rest[|rest| - 1])
    ensures var mark := Mark(hash);
      && left + mark + (rest + pad) == left + (mark + rest) + pad
      && Tight(mark + rest) && HasPrefix(mark + rest, mark)
  {
    var mark := Mark(hash);
    var core := mark + rest;
    assert core[..|mark|] == mark && core[0] == mark[0];
    assert core[|core| - 1] == if rest == "" then mark[|mark| - 1] else rest[|rest| - 1];
  }

  lemma {:induction false} BlankOfLine(left: string, right: string, comment: string)
    requires Around(left, right, comment)
    ensures var line := TrimSpace(left + "" + right + comment); line == "" || HasPrefix(line, "#")
  {
    if comment == "" {
      assert left + "" + right + comment == left + "" + right;
      hide TrimSpace;
      TrimSpaceMeaning(left, "", right);
    } else {
      assert left + "" + right + comment == left + right + "#" + comment[1..];
      hide TrimSpace;
      RemarkOfLine(left + right, true, comment[1..]);
    }
  }
}

/**
 How source text falls into words. The parser has no separate lexer: it skips blanks and reads a
 word whenever it wants one. These functions say what the text still ahead of the cursor becomes.
 */
module Lexer {

  /** Unicode White_Space or a control character. */
  predicate IsBlank(c: char) {
    var u := c as int;
    || u <= 0x20 || 0x7F <= u <= 0xA0 || u == 0x1680 || 0x2000 <= u <= 0x200A
    || u == 0x2028 || u == 0x2029 || u == 0x202F || u == 0x205F || u == 0x3000
  }

  /** The characters with the White_Space property of the Unicode standard. */
  predicate IsWhitespace(c: char) {
    var u := c as int;
    || 9 <= u <= 13 || u == 32 || u == 0x85 || u == 0xA0 || u == 0x1680 || 0x2000 <= u <= 0x200A
    || u == 0x2028 || u == 0x2029 || u == 0x202F || u == 0x205F || u == 0x3000
  }

  /** Its general category Cc. */
  predicate IsControl(c: char) {
    var u := c as int;
    u < 32 || 127 <= u < 160
  }

  lemma BlanksAreWhitespaceOrControl(c: char)
    ensures IsBlank(c) <==> IsWhitespace(c) || IsControl(c)
  {
    var u := c as int;
    assert u < 32 || 127 <= u < 160 || u == 32 || u == 160 || u >= 0x1680 || !IsBlank(c);
  }

  predicate IsSeparator(c: char) {
    c in "():={},\\#@"
  }

  predicate StartsArrow(t: string) {
    |t| >= 2 && (t[0] == '-' || t[0] == '=') && t[1] == '>'
  }

  /** Everything after an '@' met where a word could start is walled off. */
  function Skip(t: string): (r: string)
    ensures |r| <= |t|
    ensures r != "" ==> !IsBlank(r[0]) && r[0] != '@' && r == t[|t| - |r|..]
  {
    if t == "" then ""
    else if IsBlank(t[0]) then Skip(t[1..])
    else if t[0] == '@' then ""
    else t
  }

  predicate EndsWord(t: string) {
    t == "" || IsBlank(t[0]) || IsSeparator(t[0]) || StartsArrow(t)
  }

  function WordLength(t: string): (n: nat)
    ensures n <= |t|
  {
    if EndsWord(t) then 0 else 1 + WordLength(t[1..])
  }

  /** The length of the word at the head of text that starts with neither a blank nor a wall. */
  function HeadLength(t: string): (n: nat)
    requires t != ""
    ensures n <= |t| && (!IsBlank(t[0]) ==> n > 0)
  {
    if StartsArrow(t) then 2 else if IsSeparator(t[0]) then 1 else WordLength(t)
  }

  /** A word and the text behind it; at the end of the text the empty word, for ever. */
  function Next(t: string): (r: (string, string))
    ensures Skip(t) != "" ==> |r.1| < |t| && r.0 != ""
    ensures Skip(t) == "" ==> r == ("", "")
  {
    var s := Skip(t);
    if s == "" then ("", "") else (s[..HeadLength(s)], s[HeadLength(s)..])
  }

  function Words(t: string): seq<string>
    decreases |t|
  {
    if Skip(t) == "" then [] else [Next(t).0] + Words(Next(t).1)
  }

  /** Reading one word and then the rest is reading all words. */
  lemma NextIsTheFirstWord(t: string)
    ensures Words(t) == [] ==> Next(t) == ("", "") && Words(Next(t).1) == []
    ensures Words(t) != [] ==> Next(t).0 == Words(t)[0] && Words(Next(t).1) == Words(t)[1..]
  {
  }

  lemma {:induction false} SkipTwice(t: string)
    ensures Skip(Skip(t)) == Skip(t)
  {
    if t != "" && IsBlank(t[0]) {
      SkipTwice(t[1..]);
    }
  }

  lemma BlanksHideNoWords(t: string)
    ensures Words(Skip(t)) == Words(t)
    ensures Words(t) == [] <==> Skip(t) == ""
  {
    SkipTwice(t);
  }

  lemma CloserIsAWord(t: string)
    requires t != "" && t[0] == ')'
    ensures Words(t) != [] && Words(t)[0] == ")"
  {
    assert Skip(t) == t;
  }

  lemma OnlyACloserIsTheCloser(t: string)
    requires Skip(t) == t && (t == "" || t[0] != ')')
    ensures Words(t) == [] || Words(t)[0] != ")"
  {
    if t != "" {
      assert Words(t)[0][0] == t[0];
    }
  }
}

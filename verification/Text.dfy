/**
  Go strings as the address parser sees them.

  A string is read one rune at a time.  An element in 0..0x10FFFF that is not a surrogate is a code
  point; any other integer stands for one byte that is not part of a valid UTF-8 encoding (the case
  in which utf8.DecodeRune reports a RuneError of size 1).
 */
module Text {

  type Text = seq<int>

  const TAB := 9
  const SP := 32
  const QUOTE := 34      // "
  const LPAREN := 40
  const RPAREN := 41
  const COMMA := 44
  const DOT := 46
  const COLON := 58
  const SEMI := 59
  const LT := 60
  const GT := 62
  const AT := 64
  const LBRACKET := 91
  const BSLASH := 92
  const RBRACKET := 93
  const RUNE_ERROR := 0xFFFD

  predicate Valid(c: int) {
    0 <= c < 0xD800 || 0xE000 <= c < 0x110000
  }

  /** The rune that ranging over a string yields for c. */
  function RuneOf(c: int): int {
    if Valid(c) then c else RUNE_ERROR
  }

  /** The number of bytes c occupies. */
  function Size(c: int): nat {
    if !Valid(c) || c < 0x80 then 1
    else if c < 0x800 then 2
    else if c < 0x10000 then 3
    else 4
  }

  /** Go's len. */
  function ByteLen(s: Text): (n: nat)
    ensures |s| <= n
  {
    if s == [] then 0 else Size(s[0]) + ByteLen(s[1..])
  }

  lemma {:induction false} ByteLenConcat(a: Text, b: Text)
    ensures ByteLen(a + b) == ByteLen(a) + ByteLen(b)
  {
    if a == [] {
      assert a + b == b;
    } else {
      assert (a + b)[1..] == a[1..] + b;
      ByteLenConcat(a[1..], b);
    }
  }

  predicate IsMultibyte(r: int) {
    r >= 0x80
  }

  predicate IsVchar(r: int) {
    33 <= r <= 126 || IsMultibyte(r)
  }

  predicate IsWSP(r: int) {
    r == SP || r == TAB
  }

  predicate IsQtext(r: int) {
    r != BSLASH && r != QUOTE && IsVchar(r)
  }

  predicate IsAtext(r: int, dot: bool, permissive: bool) {
    if r == DOT then dot
    else if r in {LPAREN, RPAREN, LBRACKET, RBRACKET, SEMI, AT, BSLASH, COMMA} then permissive
    else if r in {LT, GT, QUOTE, COLON} then false
    else IsVchar(r)
  }

  const ATEXT_MARKS: set<int> :=
    {33, 35, 36, 37, 38, 39, 42, 43, 45, 47, 61, 63, 94, 95, 96, 123, 124, 125, 126}

  /** Among ASCII, atext is what RFC 5322, section 3.2.3, lists; the permissive form adds the specials
      except '<', '>', ':' and '"', and the dot form the dot. */
  lemma AtextOfRfc5322(r: int, dot: bool, permissive: bool)
    requires 0 <= r < 0x80
    ensures IsAtext(r, dot, permissive) <==>
            || 'a' as int <= r <= 'z' as int || 'A' as int <= r <= 'Z' as int || '0' as int <= r <= '9' as int
            || r in ATEXT_MARKS
            || (dot && r == '.' as int)
            || (permissive && r in {'(' as int, ')' as int, '[' as int, ']' as int, ';' as int,
                                    '@' as int, '\\' as int, ',' as int})
  {
  }

  /** Among ASCII, quoted text is what RFC 5322, section 3.2.4, lists, and white space is space and tab. */
  lemma QtextOfRfc5322(r: int)
    requires 0 <= r < 0x80
    ensures IsQtext(r) <==> r == 33 || 35 <= r <= 91 || 93 <= r <= 126
    ensures IsWSP(r) <==> r == ' ' as int || r == '\t' as int
  {
  }

  /** Beyond ASCII every character may stand in atoms and quoted strings (RFC 6532). */
  lemma NonAsciiText(r: int, dot: bool, permissive: bool)
    requires r >= 0x80
    ensures IsAtext(r, dot, permissive) && IsQtext(r) && IsVchar(r) && !IsWSP(r)
  {
  }

  predicate Starts(s: Text, c: int) {
    s != [] && s[0] == c
  }

  predicate HasDoubleDot(s: Text) {
    exists i :: 0 <= i < |s| - 1 && s[i] == DOT && s[i+1] == DOT
  }

  ghost predicate IsSuffix(t: Text, s: Text) {
    |t| <= |s| && t == s[|s| - |t|..]
  }

  lemma SuffixTransitive(u: Text, t: Text, s: Text)
    requires IsSuffix(u, t) && IsSuffix(t, s)
    ensures IsSuffix(u, s)
  {
    assert s[|s| - |t|..][|t| - |u|..] == s[|s| - |u|..];
  }

  lemma SuffixTail(t: Text, s: Text)
    requires IsSuffix(t, s) && t != []
    ensures IsSuffix(t[1..], s)
  {
    SuffixTransitive(t[1..], t, s);
  }

  /** strings.Join. */
  function Join(words: seq<Text>, sep: Text): Text {
    if words == [] then []
    else if |words| == 1 then words[0]
    else words[0] + sep + Join(words[1..], sep)
  }
}

/**
  The other forms of an address: display names made of words, groups, and names given in a comment
  (RFC 5322, sections 3.2.5, 3.4 and 4.4).
 */
module Syntax {
  import opened Wrappers
  import opened Text
  import opened Grammar
  import opened GrammarSteps
  import opened Comments
  import opened QuotedStrings

  // ---- white space and comments ------------------------------------------------------------

  predicate IsWhite(g: Text) {
    forall i :: 0 <= i < |g| ==> IsWSP(g[i])
  }

  lemma SkipsNothing(s: Text)
    requires s != [] ==> !IsWSP(s[0])
    ensures SkipSpace(s) == s
  {
  }

  lemma {:induction false} SkipsWhite(g: Text, s: Text)
    requires IsWhite(g)
    ensures SkipSpace(g + s) == SkipSpace(s)
  {
    if g == [] {
      assert g + s == s;
    } else {
      assert (g + s)[1..] == g[1..] + s;
      SkipsWhite(g[1..], s);
    }
  }

  /** CFWS: white space characters and comments in any sequence. */
  datatype Pad = Space(c: int) | Paren(tree: Tree)

  predicate IsPad(pad: Pad) {
    match pad
    case Space(c) => IsWSP(c)
    case Paren(t) => WellFormed(t)
  }

  predicate IsPadding(pads: seq<Pad>) {
    forall i :: 0 <= i < |pads| ==> IsPad(pads[i])
  }

  function OnePad(pad: Pad): Text {
    match pad
    case Space(c) => [c]
    case Paren(t) => [LPAREN] + (Render(t) + [RPAREN])
  }

  function PadText(pads: seq<Pad>): Text {
    if pads == [] then [] else OnePad(pads[0]) + PadText(pads[1..])
  }

  lemma SkipsOpen(u: Text)
    requires Comment(u, 1).ok
    ensures SkipCFWS([LPAREN] + u) == SkipCFWS(Comment(u, 1).rest)
  {
    hide Comment;
    assert ([LPAREN] + u)[1..] == u;
    SkipsNothing([LPAREN] + u);
  }

  lemma SkipsComment(t: Tree, s: Text)
    requires WellFormed(t)
    ensures SkipCFWS([LPAREN] + (Render(t) + [RPAREN]) + s) == SkipCFWS(s)
  {
    hide Comment, WellFormed, Render, SkipCFWS;
    CommentExact(t, s);
    SkipsOpen(Render(t) + [RPAREN] + s);
    assert [LPAREN] + (Render(t) + [RPAREN]) + s == [LPAREN] + (Render(t) + [RPAREN] + s);
  }

  lemma SkipsOneSpace(c: int, s: Text)
    requires IsWSP(c)
    ensures SkipCFWS([c] + s) == SkipCFWS(s)
  {
    hide Comment;
    assert ([c] + s)[1..] == s;
    assert SkipSpace([c] + s) == SkipSpace(s);
  }

  lemma NoPadding(s: Text)
    requires StopsPadding(s)
    ensures SkipCFWS(s) == Skip(true, s)
  {
    SkipsNothing(s);
  }

  lemma SkipsPad(pad: Pad, s: Text)
    requires IsPad(pad)
    ensures SkipCFWS(OnePad(pad) + s) == SkipCFWS(s)
  {
    hide SkipCFWS;
    match pad
    case Space(c) => SkipsOneSpace(c, s);
    case Paren(t) => SkipsComment(t, s);
  }

  /** skipCFWS skips all of it, and stops at the first character that is neither. */
  lemma {:induction false} PaddingSkipped(pads: seq<Pad>, s: Text)
    requires IsPadding(pads) && StopsPadding(s)
    ensures SkipCFWS(PadText(pads) + s) == Skip(true, s)
  {
    hide SkipCFWS, OnePad, IsPad;
    if pads == [] {
      assert PadText(pads) + s == s;
      NoPadding(s);
    } else {
      PaddingSkipped(pads[1..], s);
      SkipsPad(pads[0], PadText(pads[1..]) + s);
      assert OnePad(pads[0]) + PadText(pads[1..]) + s == OnePad(pads[0]) + (PadText(pads[1..]) + s);
    }
  }

  /** What skipCFWS skips is white space and comments. */
  lemma {:induction false} PaddingFound(s: Text) returns (pads: seq<Pad>)
    requires SkipCFWS(s).ok
    ensures IsPadding(pads) && s == PadText(pads) + SkipCFWS(s).rest
    ensures StopsPadding(SkipCFWS(s).rest)
    decreases |s|
  {
    hide Comment;
    if s != [] && IsWSP(s[0]) {
      assert s == [s[0]] + s[1..];
      SkipsOneSpace(s[0], s[1..]);
      pads := PaddingFound(s[1..]);
      pads := OneMore(Space(s[0]), pads, s, s[1..]);
    } else if Starts(s, LPAREN) {
      var t, rest := OpenFound(s);
      pads := PaddingFound(rest);
      pads := OneMore(Paren(t), pads, s, rest);
    } else {
      pads := [];
      NoPadding(s);
      assert s == [] + s;
    }
  }

  lemma OpenFound(s: Text) returns (t: Tree, rest: Text)
    requires Starts(s, LPAREN) && SkipCFWS(s).ok
    ensures WellFormed(t) && s == OnePad(Paren(t)) + rest && SkipCFWS(s) == SkipCFWS(rest)
  {
    hide Comment;
    SkipsNothing(s);
    t, rest := ReadTree(s[1..], 1);
    CommentExact(t, rest);
    assert s == [LPAREN] + (Render(t) + [RPAREN]) + rest;
  }

  lemma OneMore(pad: Pad, pads: seq<Pad>, s: Text, more: Text) returns (all: seq<Pad>)
    requires IsPad(pad) && IsPadding(pads) && SkipCFWS(s) == SkipCFWS(more)
    requires s == OnePad(pad) + more && more == PadText(pads) + SkipCFWS(more).rest
    ensures IsPadding(all) && s == PadText(all) + SkipCFWS(s).rest
  {
    hide IsPad, OnePad, SkipCFWS;
    all := [pad] + pads;
    assert all[1..] == pads;
    assert OnePad(pad) + (PadText(pads) + SkipCFWS(more).rest) == PadText(all) + SkipCFWS(more).rest;
  }

  /** What padding stops at. */
  predicate StopsPadding(s: Text) {
    s == [] || (!IsWSP(s[0]) && s[0] != LPAREN)
  }

  ghost predicate PaddedAs(s: Text, pads: seq<Pad>, rest: Text) {
    IsPadding(pads) && StopsPadding(rest) && s == PadText(pads) + rest
  }

  /** skipCFWS succeeds, with that rest, exactly on padding before it; so it fails exactly when a comment
      is never closed. */
  lemma PaddingAccepts(s: Text, rest: Text)
    ensures SkipCFWS(s) == Skip(true, rest) <==> exists pads :: PaddedAs(s, pads, rest)
  {
    hide SkipCFWS, IsPadding;
    if SkipCFWS(s) == Skip(true, rest) {
      var pads := PaddingFound(s);
      assert PaddedAs(s, pads, rest);
    }
    forall pads | PaddedAs(s, pads, rest) ensures SkipCFWS(s) == Skip(true, rest) {
      PaddingSkipped(pads, rest);
    }
  }

  lemma {:induction false} UnclosedEndsInput(s: Text, depth: nat)
    requires !Comment(s, depth).ok
    ensures Comment(s, depth).rest == []
    decreases |s|
  {
    if s != [] && depth > 0 {
      var k := if s[0] == BSLASH && |s| > 1 then 2 else 1;
      var d := if k == 2 then depth
               else if s[0] == LPAREN then depth + 1
               else if s[0] == RPAREN then depth - 1
               else depth;
      UnclosedEndsInput(s[k..], d);
    }
  }

  lemma {:induction false} BadCFWSEndsInput(s: Text)
    requires !SkipCFWS(s).ok
    ensures SkipCFWS(s).rest == []
    decreases |s|
  {
    var t := SkipSpace(s);
    if Starts(t, LPAREN) {
      if Comment(t[1..], 1).ok {
        BadCFWSEndsInput(Comment(t[1..], 1).rest);
      } else {
        UnclosedEndsInput(t[1..], 1);
      }
    }
  }

  // ---- display names -----------------------------------------------------------------------

  /** A word of a display name: an atom, as permissive as the parser is, or a quoted string. */
  datatype NameWord = Bare(w: Text) | Quoted(qs: seq<QChar>)

  /** A word and the white space after it. */
  datatype Spaced = Spaced(word: NameWord, gap: Text)

  predicate IsNameWord(w: NameWord) {
    match w
    case Bare(a) => a != [] && forall i :: 0 <= i < |a| ==> Valid(a[i]) && IsAtext(a[i], true, true)
    case Quoted(qs) => AllQChars(qs)
  }

  function Written(w: NameWord): Text {
    match w
    case Bare(a) => a
    case Quoted(qs) => InQuotes(qs)
  }

  function WordsText(words: seq<Spaced>, rest: Text): Text {
    if words == [] then rest else Written(words[0].word) + (words[0].gap + WordsText(words[1..], rest))
  }

  predicate IsEncoded(w: NameWord, dec: Decoder) {
    w.Bare? && dec(w.w).Encoded?
  }

  function Spell(w: NameWord, dec: Decoder): Text {
    match w
    case Quoted(qs) => QContent(qs)
    case Bare(a) => if dec(a).Encoded? then dec(a).word else a
  }

  /** The name the words stand for: one space between them, none between two encoded words
      (RFC 2047, section 6.2). */
  function SpellAll(words: seq<Spaced>, dec: Decoder): Text {
    if words == [] then []
    else if |words| == 1 then Spell(words[0].word, dec)
    else
      Spell(words[0].word, dec)
      + (if IsEncoded(words[0].word, dec) && IsEncoded(words[1].word, dec) then [] else [SP])
      + SpellAll(words[1..], dec)
  }

  /** What an atom stops at. */
  predicate StopsAtom(s: Text) {
    s == [] || (Valid(s[0]) && !IsAtext(s[0], true, true))
  }

  /** Words that can be read one by one up to `rest`: each atom is in a known charset and followed by
      something that ends it, so that two atoms never touch. */
  predicate Readable(words: seq<Spaced>, rest: Text, dec: Decoder) {
    words == [] ||
    (&& IsNameWord(words[0].word) && IsWhite(words[0].gap)
     && (words[0].word.Bare? ==>
           dec(words[0].word.w) != UnknownCharset && StopsAtom(words[0].gap + WordsText(words[1..], rest)))
     && Readable(words[1..], rest, dec))
  }

  /** What a phrase stops at: a character that starts no word. */
  predicate StopsPhrase(s: Text) {
    StopsAtom(s) && (s != [] ==> !IsWSP(s[0]) && s[0] != QUOTE)
  }

  lemma PermissiveAtom(a: Text, tail: Text)
    requires IsNameWord(Bare(a)) && StopsAtom(tail)
    ensures Atom(a + tail, true, true) == Scan(Ok(a), tail)
  {
    var s := a + tail;
    assert AtomLen(s, true, true) == |a| by {
      assert forall i :: 0 <= i < |a| ==> s[i] == a[i];
      assert tail != [] ==> s[|a|] == tail[0];
    }
    assert s[..|a|] == a && s[|a|..] == tail;
  }

  lemma WrittenStart(w: NameWord, tail: Text)
    requires IsNameWord(w)
    ensures var s := Written(w) + tail;
            s != [] && !IsWSP(s[0]) && s[0] != LT && (s[0] == QUOTE <==> w.Quoted?)
  {
  }

  lemma PhraseWordExact(w: NameWord, tail: Text, dec: Decoder)
    requires IsNameWord(w) && (w.Bare? ==> StopsAtom(tail) && dec(w.w) != UnknownCharset)
    ensures Written(w) + tail != []
    ensures PhraseWord(Written(w) + tail, dec) == Word(Scan(Ok(Spell(w, dec)), tail), IsEncoded(w, dec))
  {
    WrittenStart(w, tail);
    match w
    case Quoted(qs) => InQuotesRead(qs, tail);
    case Bare(a) => PermissiveAtom(a, tail);
  }

  /** Reading the words one by one: some words counted, their text after what was read before. */
  lemma {:induction false} NameWords(words: seq<Spaced>, rest: Text, dec: Decoder, prev: bool, count: nat, acc: Text)
    returns (n: nat, last: bool)
    requires words != [] && Readable(words, rest, dec) && (prev ==> count > 0)
    ensures n > 0
    ensures PhraseFrom(WordsText(words, rest), dec, prev, count, acc) ==
            PhraseFrom(rest, dec, last, n,
              acc + (if count == 0 || (prev && IsEncoded(words[0].word, dec)) then [] else [SP])
                  + SpellAll(words, dec))
    decreases |words|
  {
    hide PhraseFrom, PhraseWord, IsNameWord, Spell, Written, StopsAtom;
    var w, gap, more := words[0].word, words[0].gap, WordsText(words[1..], rest);
    PhraseWordExact(w, gap + more, dec);
    WrittenStart(w, gap + more);
    var joined := prev && IsEncoded(w, dec);
    var sep := if count == 0 || joined then [] else [SP];
    var text := acc + sep + Spell(w, dec);
    n, last := if joined then count else count + 1, IsEncoded(w, dec);
    WordStep(Written(w) + (gap + more), Spell(w, dec), gap + more, dec, prev, count, acc, last);
    PhraseSkipsWhite(gap, more, dec, last, n, text);
    if |words| > 1 {
      var gone := last;
      n, last := NameWords(words[1..], rest, dec, gone, n, text);
      var between := if gone && IsEncoded(words[1].word, dec) then [] else [SP];
      assert words[1..][0] == words[1];
      assert acc + sep + Spell(w, dec) + between + SpellAll(words[1..], dec) ==
             acc + sep + (Spell(w, dec) + between + SpellAll(words[1..], dec));
    }
  }

  /** One turn of the phrase loop that reads a word. */
  lemma WordStep(s: Text, word: Text, rest: Text, dec: Decoder, prev: bool, count: nat, acc: Text, encoded: bool)
    requires s != [] && !IsWSP(s[0]) && PhraseWord(s, dec) == Word(Scan(Ok(word), rest), encoded)
    requires prev ==> count > 0
    ensures var joined := prev && encoded;
            var sep := if count == 0 || joined then [] else [SP];
            PhraseFrom(s, dec, prev, count, acc) ==
            PhraseFrom(rest, dec, encoded, if joined then count else count + 1, acc + sep + word)
  {
    hide PhraseWord;
    SkipsNothing(s);
    assert acc + [] == acc;
  }

  lemma PhraseSkipsWhite(g: Text, s: Text, dec: Decoder, prev: bool, count: nat, acc: Text)
    requires IsWhite(g)
    ensures PhraseFrom(g + s, dec, prev, count, acc) == PhraseFrom(s, dec, prev, count, acc)
  {
    hide PhraseWord, SkipSpace;
    SkipsWhite(g, s);
  }

  lemma PhraseEnds(rest: Text, dec: Decoder, prev: bool, count: nat, acc: Text)
    requires count > 0 && StopsPhrase(rest)
    ensures PhraseFrom(rest, dec, prev, count, acc) == Scan(Ok(acc), rest)
  {
    assert rest != [] ==> AtomLen(rest, true, true) == 0;
  }

  lemma WordsArePhrase(words: seq<Spaced>, rest: Text, dec: Decoder)
    requires words != [] && Readable(words, rest, dec) && StopsPhrase(rest)
    ensures Phrase(WordsText(words, rest), dec) == Scan(Ok(SpellAll(words, dec)), rest)
  {
    var n, last := NameWords(words, rest, dec, false, 0, []);
    assert [] + [] + SpellAll(words, dec) == SpellAll(words, dec);
    PhraseEnds(rest, dec, last, n, SpellAll(words, dec));
  }

  /** A text that is no addr-spec, is a phrase up to `rest`, and goes on from there. */
  lemma AfterPhrase(s: Text, name: Text, rest: Text, handleGroup: bool, dec: Decoder)
    requires s != [] && !IsWSP(s[0]) && s[0] != LT
    requires AddrSpec(s).value.Err? && Phrase(s, dec) == Scan(Ok(name), rest)
    ensures var after := SkipSpace(rest);
            ParseAddress(s, handleGroup, dec) ==
            if handleGroup && Starts(after, COLON) then GroupList(after[1..], dec) else AngleAddr(after, name)
  {
    hide AddrSpec, PhraseFrom, AngleAddr, GroupList;
    SkipsNothing(s);
  }

  /** Words that are not an addr-spec, then `rest`: the name they spell goes with the angle-addr that
      must follow, or they name a group. */
  lemma WordsAreAName(words: seq<Spaced>, rest: Text, handleGroup: bool, dec: Decoder)
    requires words != [] && Readable(words, rest, dec) && StopsPhrase(rest)
    requires AddrSpec(WordsText(words, rest)).value.Err?
    ensures ParseAddress(WordsText(words, rest), handleGroup, dec) ==
            if handleGroup && Starts(rest, COLON) then GroupList(rest[1..], dec)
            else AngleAddr(rest, SpellAll(words, dec))
  {
    WrittenStart(words[0].word, words[0].gap + WordsText(words[1..], rest));
    WordsArePhrase(words, rest, dec);
    SkipsNothing(rest);
    AfterPhrase(WordsText(words, rest), SpellAll(words, dec), rest, handleGroup, dec);
  }

  /** Words and nothing else are not an address; which error it is depends on the name they spell. */
  lemma NameAlone(words: seq<Spaced>, handleGroup: bool, dec: Decoder)
    requires words != [] && Readable(words, [], dec) && AddrSpec(WordsText(words, [])).value.Err?
    ensures ParseAddress(WordsText(words, []), handleGroup, dec) ==
            Failed(if AllAtext(SpellAll(words, dec)) then MissingAtOrAngle else NoAngleAddr, [])
  {
    hide ParseAddress, WordsText, Readable, AddrSpec, AllAtext, SpellAll;
    WordsAreAName(words, [], handleGroup, dec);
  }

  /** What the parser leaves of a text whose first word it cannot read: nothing of it is consumed, except
      an atom in an unknown charset. */
  function Unread(s: Text, dec: Decoder): Text {
    if s == [] then [] else PhraseWord(s, dec).scan.rest
  }

  predicate BadWord(s: Text, dec: Decoder) {
    s != [] && !IsWSP(s[0]) && PhraseWord(s, dec).scan.value.Err?
  }

  lemma BadWordEnds(s: Text, dec: Decoder, prev: bool, count: nat, acc: Text)
    requires BadWord(s, dec)
    ensures PhraseFrom(s, dec, prev, count, acc) ==
            Scan(if count == 0 then Err(MissingWord) else Ok(acc), Unread(s, dec))
  {
    hide PhraseWord;
    SkipsNothing(s);
  }

  /** A word that cannot be read, after other words, ends the name without an error. */
  lemma BadWordDropped(words: seq<Spaced>, tail: Text, handleGroup: bool, dec: Decoder)
    requires words != [] && Readable(words, tail, dec) && BadWord(tail, dec)
    requires AddrSpec(WordsText(words, tail)).value.Err?
    ensures var after := SkipSpace(Unread(tail, dec));
            ParseAddress(WordsText(words, tail), handleGroup, dec) ==
            if handleGroup && Starts(after, COLON) then GroupList(after[1..], dec)
            else AngleAddr(after, SpellAll(words, dec))
  {
    var n, last := NameWords(words, tail, dec, false, 0, []);
    assert [] + [] + SpellAll(words, dec) == SpellAll(words, dec);
    BadWordEnds(tail, dec, last, n, SpellAll(words, dec));
    WrittenStart(words[0].word, words[0].gap + WordsText(words[1..], tail));
    hide BadWord, PhraseWord;
    AfterPhrase(WordsText(words, tail), SpellAll(words, dec), Unread(tail, dec), handleGroup, dec);
  }

  /** As the first word it is an error. */
  lemma BadWordFirst(s: Text, handleGroup: bool, dec: Decoder)
    requires BadWord(s, dec) && s[0] != LT && AddrSpec(s).value.Err?
    ensures ParseAddress(s, handleGroup, dec) == Failed(MissingWord, Unread(s, dec))
  {
    BadWordEnds(s, dec, false, 0, []);
    SkipsNothing(s);
    hide AddrSpec, PhraseFrom, AngleAddr, GroupList, PhraseWord;
  }

  lemma UnknownIsBad(bad: Text, rest: Text, dec: Decoder)
    requires IsNameWord(Bare(bad)) && dec(bad) == UnknownCharset && StopsAtom(rest)
    ensures BadWord(bad + rest, dec) && Unread(bad + rest, dec) == rest
  {
    PermissiveAtom(bad, rest);
    WrittenStart(Bare(bad), rest);
    hide Atom;
  }

  /** A word in an unknown charset after other words is dropped without an error: the name is what came
      before it. */
  lemma UnknownCharsetDropped(words: seq<Spaced>, bad: Text, rest: Text, handleGroup: bool, dec: Decoder)
    requires words != [] && Readable(words, bad + rest, dec)
    requires IsNameWord(Bare(bad)) && dec(bad) == UnknownCharset && StopsAtom(rest)
    requires AddrSpec(WordsText(words, bad + rest)).value.Err?
    ensures var after := SkipSpace(rest);
            ParseAddress(WordsText(words, bad + rest), handleGroup, dec) ==
            if handleGroup && Starts(after, COLON) then GroupList(after[1..], dec)
            else AngleAddr(after, SpellAll(words, dec))
  {
    hide ParseAddress, AngleAddr, BadWord, Unread, AddrSpec, GroupList, SkipSpace, Readable;
    UnknownIsBad(bad, rest, dec);
    BadWordDropped(words, bad + rest, handleGroup, dec);
  }

  lemma UnknownCharsetFirst(bad: Text, rest: Text, handleGroup: bool, dec: Decoder)
    requires IsNameWord(Bare(bad)) && dec(bad) == UnknownCharset && StopsAtom(rest)
    requires AddrSpec(bad + rest).value.Err?
    ensures ParseAddress(bad + rest, handleGroup, dec) == Failed(MissingWord, rest)
  {
    hide ParseAddress, AddrSpec;
    UnknownIsBad(bad, rest, dec);
    WrittenStart(Bare(bad), rest);
    BadWordFirst(bad + rest, handleGroup, dec);
  }

  /** Words cannot be taken for an addr-spec when no '@' is where the local part could end: inside a
      first atom, or right after a first quoted string. */
  lemma WordsAreNoAddrSpec(words: seq<Spaced>, rest: Text, dec: Decoder)
    requires words != [] && Readable(words, rest, dec) && StopsPhrase(rest)
    requires words[0].word.Bare? ==> AT !in words[0].word.w
    requires words[0].word.Quoted? ==> !Starts(words[0].gap + WordsText(words[1..], rest), AT)
    ensures AddrSpec(WordsText(words, rest)).value.Err?
  {
    var tail := words[0].gap + WordsText(words[1..], rest);
    WrittenStart(words[0].word, tail);
    match words[0].word
    case Quoted(qs) =>
      InQuotesRead(qs, tail);
      SkipsNothing(Written(words[0].word) + tail);
    case Bare(a) => NoAddrSpecIn(a, tail);
  }

  lemma NoAddrSpecIn(w: Text, tail: Text)
    requires IsNameWord(Bare(w)) && AT !in w && StopsAtom(tail)
    ensures AddrSpec(w + tail).value.Err?
  {
    var s := w + tail;
    assert IsAtext(w[0], true, true) && SkipSpace(s) == s;
    var n := AtomLen(s, true, false);
    assert tail != [] ==> s[|w|] == tail[0];
    assert n <= |w|;
    if n < |s| {
      assert s[n] != AT by {
        if n < |w| { assert s[n] == w[n]; } else { assert s[n] == tail[0]; }
      }
      assert s[n..][0] == s[n];
    }
  }

  // ---- names in comments -------------------------------------------------------------------------

  /** A field and the white space after it. */
  datatype Field = Field(word: Text, gap: Text)

  function FieldsText(fields: seq<Field>): Text {
    if fields == [] then [] else fields[0].word + (fields[0].gap + FieldsText(fields[1..]))
  }

  predicate IsField(w: Text) {
    w != [] && forall i :: 0 <= i < |w| ==> !IsWSP(w[i])
  }

  lemma {:induction false} FieldRead(w: Text, rest: Text, word: Text)
    requires forall i :: 0 <= i < |w| ==> !IsWSP(w[i])
    ensures Fields(w + rest, word) == Fields(rest, word + w)
    decreases |w|
  {
    if w == [] {
      assert w + rest == rest && word + w == word;
    } else {
      assert (w + rest)[1..] == w[1..] + rest;
      FieldRead(w[1..], rest, word + [w[0]]);
      assert word + [w[0]] + w[1..] == word + w;
    }
  }

  lemma {:induction false} GapRead(g: Text, rest: Text, word: Text)
    requires IsWhite(g)
    ensures Fields(g + rest, word) == if g == [] || word == [] then Fields(rest, word) else [word] + Fields(rest)
    decreases |g|
  {
    if g == [] {
      assert g + rest == rest;
    } else {
      assert (g + rest)[1..] == g[1..] + rest;
      GapRead(g[1..], rest, []);
    }
  }

  function FieldWords(fields: seq<Field>): seq<Text> {
    if fields == [] then [] else [fields[0].word] + FieldWords(fields[1..])
  }

  /** Fields with white space between them. */
  predicate AreFields(fields: seq<Field>) {
    fields == [] ||
    (&& IsField(fields[0].word) && IsWhite(fields[0].gap)
     && (|fields| > 1 ==> fields[0].gap != [])
     && AreFields(fields[1..]))
  }

  /** Splitting finds exactly the fields, whatever white space is before, between and after them. */
  lemma FieldsExact(lead: Text, fields: seq<Field>)
    requires IsWhite(lead) && AreFields(fields)
    ensures Fields(lead + FieldsText(fields)) == FieldWords(fields)
  {
    GapRead(lead, FieldsText(fields), []);
    FieldsFound(fields);
  }

  lemma FieldsEnd(word: Text)
    ensures Fields([], word) == if word == [] then [] else [word]
  {
  }

  lemma {:induction false} FieldsFound(fields: seq<Field>)
    requires AreFields(fields)
    ensures Fields(FieldsText(fields)) == FieldWords(fields)
  {
    hide Fields;
    if fields == [] {
      FieldsEnd([]);
    } else {
      var f, more := fields[0], FieldsText(fields[1..]);
      FieldRead(f.word, f.gap + more, []);
      assert [] + f.word == f.word;
      GapRead(f.gap, more, f.word);
      FieldsFound(fields[1..]);
      FieldsEnd(f.word);
      assert |fields| == 1 ==> more == [];
    }
  }

  /** A field as it is or, when it is an encoded word, decoded. */
  function Decode(w: Text, dec: Decoder): Text {
    if dec(w).Encoded? then dec(w).word else w
  }

  function DecodeAll(words: seq<Text>, dec: Decoder): seq<Text> {
    seq(|words|, i requires 0 <= i < |words| => Decode(words[i], dec))
  }

  /** Decoding fails exactly when some field is in an unknown charset; otherwise each encoded word is
      decoded and every other field stays as it is. */
  lemma {:induction false} DecodeWordsIs(words: seq<Text>, dec: Decoder)
    ensures (exists w :: w in words && dec(w) == UnknownCharset) ==> DecodeWords(words, dec) == Err(CharsetError)
    ensures (forall w :: w in words ==> dec(w) != UnknownCharset) ==>
              DecodeWords(words, dec) == Ok(DecodeAll(words, dec))
  {
    if words != [] {
      var more := words[1..];
      DecodeWordsIs(more, dec);
      assert words == [words[0]] + more;
      assert DecodeAll(words, dec) == [Decode(words[0], dec)] + DecodeAll(more, dec);
    } else {
      assert DecodeAll(words, dec) == [];
    }
  }

  /** Any text that is a bare addr-spec up to white space and a comment: the comment's fields, escapes
      removed and encoded words decoded, joined by spaces, are the name; an unknown charset in one of
      them is an error. */
  lemma CommentIsTheName(s: Text, x: Text, gap: Text, t: Tree, rest: Text, handleGroup: bool, dec: Decoder)
    requires IsWhite(gap) && WellFormed(t)
    requires AddrSpec(s) == Scan(Ok(x), gap + ([LPAREN] + (Render(t) + [RPAREN] + rest)))
    ensures ParseAddress(s, handleGroup, dec) ==
            match DecodeWords(Fields(Content(t)), dec)
            case Ok(words) => Parsed(None, 1, [Address(Join(words, [SP]), x)], rest)
            case Err(e) => Failed(e, rest)
  {
    var comment := Render(t) + [RPAREN] + rest;
    CommentExact(t, rest);
    BareForm(s, x, gap + ([LPAREN] + comment), handleGroup, dec);
    CommentName(x, gap, Content(t), comment, rest, dec);
  }

  lemma CommentName(x: Text, gap: Text, content: Text, comment: Text, rest: Text, dec: Decoder)
    requires IsWhite(gap) && Comment(comment, 1) == CommentScan(content, true, rest)
    ensures BareAddr(gap + ([LPAREN] + comment), x, dec) ==
            match DecodeWords(Fields(content), dec)
            case Ok(words) => Parsed(None, 1, [Address(Join(words, [SP]), x)], rest)
            case Err(e) => Failed(e, rest)
  {
    hide Comment, Fields, DecodeWords, Join, SkipSpace;
    var open := [LPAREN] + comment;
    SkipsWhite(gap, open);
    SkipsNothing(open);
    assert open[1..] == comment;
  }

  lemma BareForm(s: Text, x: Text, tail: Text, handleGroup: bool, dec: Decoder)
    requires AddrSpec(s) == Scan(Ok(x), tail)
    ensures ParseAddress(s, handleGroup, dec) == BareAddr(tail, x, dec)
  {
    hide LocalPart, Atom, BareAddr;
    var t := SkipSpace(s);
    SkipSpaceTwice(s);
    assert AddrSpecBody(t) == AddrSpecBody(s);
    hide AddrSpecBody;
    assert AddrSpec(t) == AddrSpec(s);
  }
}
